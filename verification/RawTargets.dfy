/** Raw device targets of the mount service (src/service/apfs_mount_service.cpp): the two spellings of
    a device path, what they parse to, and which stretch of which disk they stand for. */
module RawTargets {
  import opened Common
  import opened Text

  const INT32_MAX := 0x7fff_ffff

  const DRIVE := "\\\\.\\PhysicalDrive"
  const DEVICE := "\\\\?\\GLOBALROOT\\Device\\Harddisk"
  const PARTITION := "\\Partition"

  const FOLDED_DRIVE := "\\\\.\\physicaldrive"
  const FOLDED_DEVICE := "\\\\?\\globalroot\\device\\harddisk"
  const FOLDED_PARTITION := "\\partition"

  function PhysicalDrivePath(disk: nat): string {
    DRIVE + Decimal(disk)
  }

  function PartitionDevicePath(disk: nat, partition: nat): string {
    DEVICE + Decimal(disk) + PARTITION + Decimal(partition)
  }

  // Numbers in a path

  /** `QString::toInt`: spaces around, one sign, decimal digits, 32 bits. */
  function ToInt(s: string): Option<int> {
    var t := Trim(s);
    var negative := t != [] && t[0] == '-';
    var digits := if t != [] && (t[0] == '-' || t[0] == '+') then t[1..] else t;
    if digits == [] || !Digits(digits) then None
    else
      var value: int := if negative then 0 - Number(digits) else Number(digits);
      if -INT32_MAX - 1 <= value <= INT32_MAX then Some(value) else None
  }

  /** A number without spaces is read if and only if it has 32 bits with its sign. */
  lemma ToIntRange(n: nat, digits: string)
    requires digits == Decimal(n)
    ensures ToInt(digits) == if n <= 0x7fff_ffff then Some(n) else None
  {
    hide Decimal, Number, Trim;
    DecimalReadsBack(n);
    TrimDigits(digits);
  }

  lemma ToIntNegativeRange(n: nat, digits: string)
    requires digits == Decimal(n)
    ensures ToInt("-" + digits) == if n <= 0x8000_0000 then Some(0 - n as int) else None
  {
    hide Decimal, Number, Trim;
    DecimalReadsBack(n);
    TrimNegative(digits);
    assert ("-" + digits)[1..] == digits;
  }

  lemma TrimNegative(digits: string)
    requires digits != [] && Digits(digits)
    ensures Trim("-" + digits) == "-" + digits
  {
    var s := "-" + digits;
    assert TrimLeft(s) == s && TrimRight(s) == s;
  }

  lemma ToIntSpelled()
    ensures ToInt("7") == Some(7) && ToInt("-7") == Some(-7) && ToInt("+7") == Some(7) && ToInt(" 7") == Some(7)
    ensures ToInt("") == None && ToInt("-") == None && ToInt("7x") == None
  {
    assert TrimLeft("7") == "7" && TrimRight("7") == "7" && TrimLeft(" 7") == "7" by {
      assert " 7"[1..] == "7";
    }
    assert TrimLeft("-7") == "-7" && TrimRight("-7") == "-7" && "-7"[1..] == "7";
    assert TrimLeft("+7") == "+7" && TrimRight("+7") == "+7" && "+7"[1..] == "7";
    assert TrimLeft("-") == "-" && TrimRight("-") == "-" && "-"[1..] == "";
    assert TrimLeft("7x") == "7x" && TrimRight("7x") == "7x" && "7x"[1] == 'x';
    assert "7"[..0] == "" && Number("7") == 7;
  }

  predicate StartsWith(s: string, t: string) {
    |t| <= |s| && s[..|t|] == t
  }

  function IndexOf(s: string, t: string): (r: Option<nat>)
    ensures r.Some? ==> r.value + |t| <= |s|
  {
    if |s| < |t| then None
    else if s[..|t|] == t then Some(0)
    else if s == [] then None
    else match IndexOf(s[1..], t)
      case None => None
      case Some(k) => Some(k + 1)
  }

  // Parsing

  /** Partition 0 stands for the whole disk. */
  datatype RawTarget = RawTarget(disk: nat, partition: nat)

  function ParseDrive(rest: string): Option<RawTarget> {
    match ToInt(rest)
    case None => None
    case Some(disk) => if disk >= 0 then Some(RawTarget(disk, 0)) else None
  }

  function ParseDevice(suffix: string): Option<RawTarget> {
    match IndexOf(suffix, FOLDED_PARTITION)
    case None => None
    case Some(k) =>
      if k == 0 then None
      else
        match (ToInt(suffix[..k]), ToInt(suffix[k + |FOLDED_PARTITION|..]))
        case (Some(disk), Some(partition)) =>
          if disk < 0 || partition <= 0 then None else Some(RawTarget(disk, partition))
        case _ => None
  }

  /** Every comparison ignores case and digits have none, so the folded path is what is parsed. */
  function ParseRawTarget(target: string): Option<RawTarget> {
    var folded := Lower(target);
    if StartsWith(folded, FOLDED_DRIVE) then ParseDrive(folded[|FOLDED_DRIVE|..])
    else if StartsWith(folded, FOLDED_DEVICE) then ParseDevice(folded[|FOLDED_DEVICE|..])
    else None
  }

  lemma DecimalIsANumber(n: nat)
    requires n <= INT32_MAX
    ensures ToInt(Decimal(n)) == Some(n)
  {
    hide Decimal, Number, Trim;
    DecimalReadsBack(n);
    TrimDigits(Decimal(n));
  }

  lemma TrimDigits(s: string)
    requires s != [] && Digits(s)
    ensures Trim(s) == s
  {
    assert TrimLeft(s) == s && TrimRight(s) == s;
  }

  lemma LowerOfDigits(s: string)
    requires Digits(s)
    ensures Lower(s) == s
  {
  }

  lemma {:induction false} IndexOfAfter(word: string, t: string, rest: string)
    requires t != [] && t[0] !in word
    ensures IndexOf(word + t + rest, t) == Some(|word|)
  {
    var s := word + t + rest;
    if word == [] {
      assert s[..|t|] == t;
    } else {
      assert s[..|t|][0] == word[0];
      assert s[1..] == word[1..] + t + rest;
      IndexOfAfter(word[1..], t, rest);
    }
  }

  lemma FoldedDrive()
    ensures Lower(DRIVE) == FOLDED_DRIVE && Lower(PARTITION) == FOLDED_PARTITION
  {
  }

  lemma FoldedDevice()
    ensures Lower(DEVICE) == FOLDED_DEVICE
  {
  }

  lemma LowerOfDrivePath(disk: nat)
    ensures Lower(PhysicalDrivePath(disk)) == FOLDED_DRIVE + Decimal(disk)
  {
    hide Lower;
    DecimalReadsBack(disk);
    LowerConcat(DRIVE, Decimal(disk));
    LowerOfDigits(Decimal(disk));
    FoldedDrive();
  }

  lemma LowerOfPartitionPath(disk: nat, partition: nat)
    ensures Lower(PartitionDevicePath(disk, partition)) ==
            FOLDED_DEVICE + (Decimal(disk) + FOLDED_PARTITION + Decimal(partition))
  {
    hide Lower;
    DecimalReadsBack(disk);
    DecimalReadsBack(partition);
    LowerConcat(DEVICE + Decimal(disk) + PARTITION, Decimal(partition));
    LowerConcat(DEVICE + Decimal(disk), PARTITION);
    LowerConcat(DEVICE, Decimal(disk));
    LowerOfDigits(Decimal(disk));
    LowerOfDigits(Decimal(partition));
    FoldedDrive();
    FoldedDevice();
    Regroup(FOLDED_DEVICE + Decimal(disk), FOLDED_PARTITION, Decimal(partition));
    Regroup(FOLDED_DEVICE, Decimal(disk), FOLDED_PARTITION + Decimal(partition));
    Regroup(Decimal(disk), FOLDED_PARTITION, Decimal(partition));
  }

  /** The path of a disk parses to that disk. */
  lemma DriveParses(disk: nat)
    requires disk <= INT32_MAX
    ensures ParseRawTarget(PhysicalDrivePath(disk)) == Some(RawTarget(disk, 0))
  {
    hide Lower, ToInt;
    LowerOfDrivePath(disk);
    DecimalIsANumber(disk);
    var folded := FOLDED_DRIVE + Decimal(disk);
    assert folded[..|FOLDED_DRIVE|] == FOLDED_DRIVE && folded[|FOLDED_DRIVE|..] == Decimal(disk);
  }

  /** The path of a partition parses to that partition of that disk. */
  lemma PartitionParses(disk: nat, partition: nat)
    requires disk <= INT32_MAX && 0 < partition <= INT32_MAX
    ensures ParseRawTarget(PartitionDevicePath(disk, partition)) == Some(RawTarget(disk, partition))
  {
    hide Lower, ToInt, IndexOf;
    LowerOfPartitionPath(disk, partition);
    SuffixParses(disk, partition);
    var suffix := Decimal(disk) + FOLDED_PARTITION + Decimal(partition);
    var folded := FOLDED_DEVICE + suffix;
    assert folded[..|FOLDED_DEVICE|] == FOLDED_DEVICE && folded[|FOLDED_DEVICE|..] == suffix;
    assert folded[2] == FOLDED_DEVICE[2] == '?';
    NotADrive(folded);
  }

  lemma NotADrive(folded: string)
    requires |folded| > 2 && folded[2] == '?'
    ensures !StartsWith(folded, FOLDED_DRIVE)
  {
    assert FOLDED_DRIVE[2] == '.';
    assert |folded| >= |FOLDED_DRIVE| ==> folded[..|FOLDED_DRIVE|][2] == '?';
  }

  lemma SuffixParses(disk: nat, partition: nat)
    requires disk <= INT32_MAX && 0 < partition <= INT32_MAX
    ensures ParseDevice(Decimal(disk) + FOLDED_PARTITION + Decimal(partition)) == Some(RawTarget(disk, partition))
  {
    hide ToInt, IndexOf;
    DecimalReadsBack(disk);
    DecimalIsANumber(disk);
    DecimalIsANumber(partition);
    var suffix := Decimal(disk) + FOLDED_PARTITION + Decimal(partition);
    IndexOfAfter(Decimal(disk), FOLDED_PARTITION, Decimal(partition));
    assert suffix[..|Decimal(disk)|] == Decimal(disk);
    assert suffix[|Decimal(disk)| + |FOLDED_PARTITION|..] == Decimal(partition);
  }

  /** The two kinds of paths never coincide. */
  lemma PathsDiffer(disk: nat, disk': nat, partition: nat)
    ensures Lower(PhysicalDrivePath(disk)) != Lower(PartitionDevicePath(disk', partition))
  {
    hide Lower;
    LowerOfDrivePath(disk);
    LowerOfPartitionPath(disk', partition);
    assert (FOLDED_DRIVE + Decimal(disk))[2] == '.';
    assert (FOLDED_DEVICE + (Decimal(disk') + FOLDED_PARTITION + Decimal(partition)))[2] == '?';
  }

  // Regions

  /** The disks: where each partition that exists starts. */
  type Layout = map<RawTarget, nat>

  datatype Volume = Volume(disk: nat, partition: nat, offset: nat, target: string)

  /** What a scan reports about these disks. */
  ghost predicate ScanOf(layout: Layout, volumes: seq<Volume>) {
    forall v :: v in volumes ==>
      && v.disk <= INT32_MAX && v.partition <= INT32_MAX
      && (v.partition == 0 ==> v.target == PhysicalDrivePath(v.disk))
      && (v.partition != 0 ==>
            && v.target == PartitionDevicePath(v.disk, v.partition)
            && RawTarget(v.disk, v.partition) in layout && layout[RawTarget(v.disk, v.partition)] == v.offset)
  }

  /** For instance, a scan that finds a partition and a whole disk. */
  lemma ScanOfTwo(disk: nat, partition: nat, start: nat, whole: nat)
    requires disk <= 0x7fff_ffff && 0 < partition <= 0x7fff_ffff && whole <= 0x7fff_ffff
    ensures ScanOf(map[RawTarget(disk, partition) := start],
                   [Volume(disk, partition, start, PartitionDevicePath(disk, partition)),
                    Volume(whole, 0, 0, PhysicalDrivePath(whole))])
  {
    hide PartitionDevicePath, PhysicalDrivePath;
  }

  /** A start on a disk; the source prints it as a string, one for each pair. */
  datatype Identity = Identity(disk: nat, offset: nat)

  function FindVolume(volumes: seq<Volume>, disk: nat, partition: nat): (r: Option<Volume>)
    ensures r.Some? ==> r.value in volumes && r.value.disk == disk && r.value.partition == partition
  {
    if volumes == [] then None
    else if volumes[0].disk == disk && volumes[0].partition == partition then Some(volumes[0])
    else FindVolume(volumes[1..], disk, partition)
  }

  /** The region a target starts at, from the scan or else from the system. */
  function RawTargetIdentity(layout: Layout, volumes: seq<Volume>, target: string): Option<Identity> {
    match ParseRawTarget(target)
    case None => None
    case Some(raw) =>
      if raw.partition == 0 then Some(Identity(raw.disk, 0))
      else
        match FindVolume(volumes, raw.disk, raw.partition)
        case Some(volume) => Some(Identity(raw.disk, volume.offset))
        case None => if raw in layout then Some(Identity(raw.disk, layout[raw])) else None
  }

  predicate SameRawRegion(layout: Layout, volumes: seq<Volume>, left: string, right: string) {
    || Lower(left) == Lower(right)
    || (RawTargetIdentity(layout, volumes, left).Some?
        && RawTargetIdentity(layout, volumes, left) == RawTargetIdentity(layout, volumes, right))
  }

  /** What a target stands for, whichever scan is at hand. */
  datatype Region = OnDisk(identity: Identity) | Named(folded: string)

  function RegionOf(layout: Layout, target: string): Region {
    match ParseRawTarget(target)
    case None => Named(Lower(target))
    case Some(raw) =>
      if raw.partition == 0 then OnDisk(Identity(raw.disk, 0))
      else if raw in layout then OnDisk(Identity(raw.disk, layout[raw]))
      else Named(Lower(target))
  }

  lemma IdentityIsRegion(layout: Layout, volumes: seq<Volume>, target: string)
    requires ScanOf(layout, volumes)
    ensures RegionOf(layout, target) ==
            match RawTargetIdentity(layout, volumes, target) case Some(id) => OnDisk(id) case None => Named(Lower(target))
  {
    hide ParseRawTarget, Lower, PartitionDevicePath, PhysicalDrivePath;
  }

  /** Two targets name the same region exactly when they stand for the same thing: the test is an
      equivalence and does not depend on the scan. */
  lemma SameRegionIff(layout: Layout, volumes: seq<Volume>, left: string, right: string)
    requires ScanOf(layout, volumes)
    ensures SameRawRegion(layout, volumes, left, right) <==> RegionOf(layout, left) == RegionOf(layout, right)
  {
    IdentityIsRegion(layout, volumes, left);
    IdentityIsRegion(layout, volumes, right);
    SpellingsAgree(layout, left, right);
    hide ParseRawTarget, Lower, FindVolume;
  }

  lemma SpellingsAgree(layout: Layout, left: string, right: string)
    ensures Lower(left) == Lower(right) ==>
              ParseRawTarget(left) == ParseRawTarget(right) && RegionOf(layout, left) == RegionOf(layout, right)
  {
    hide Lower, ParseDevice, ParseDrive;
  }

  /** Paths as they are printed. */
  lemma PathsSpelled()
    ensures PhysicalDrivePath(2) == "\\\\.\\PhysicalDrive2"
    ensures PartitionDevicePath(0, 3) == "\\\\?\\GLOBALROOT\\Device\\Harddisk0\\Partition3"
  {
    assert Decimal(2) == "2" && Decimal(0) == "0" && Decimal(3) == "3";
  }

  /** The number of a disk has 31 bits. */
  lemma LargeDisk(disk: nat)
    requires disk > 0x7fff_ffff
    ensures ParseRawTarget(PhysicalDrivePath(disk)) == None
  {
    hide Lower, ToInt, Decimal;
    LowerOfDrivePath(disk);
    ToIntRange(disk, Decimal(disk));
    var folded := FOLDED_DRIVE + Decimal(disk);
    assert folded[..|FOLDED_DRIVE|] == FOLDED_DRIVE && folded[|FOLDED_DRIVE|..] == Decimal(disk);
  }

  /** There is no partition 0. */
  lemma NoPartitionZero(disk: nat)
    ensures ParseRawTarget(PartitionDevicePath(disk, 0)) == None
  {
    hide Lower, ToInt, IndexOf, Decimal;
    LowerOfPartitionPath(disk, 0);
    var suffix := Decimal(disk) + FOLDED_PARTITION + Decimal(0);
    var path := FOLDED_DEVICE + suffix;
    assert path[..|FOLDED_DEVICE|] == FOLDED_DEVICE && path[|FOLDED_DEVICE|..] == suffix;
    assert path[2] == FOLDED_DEVICE[2] == '?';
    NotADrive(path);
    DecimalReadsBack(disk);
    ToIntRange(0, Decimal(0));
    IndexOfAfter(Decimal(disk), FOLDED_PARTITION, Decimal(0));
    assert suffix[..|Decimal(disk)|] == Decimal(disk);
    assert suffix[|Decimal(disk)| + |FOLDED_PARTITION|..] == Decimal(0);
  }

  /** Where the printed paths start. */
  lemma PathRegions(layout: Layout, disk: nat, partition: nat)
    requires disk <= INT32_MAX && 0 < partition <= INT32_MAX
    ensures RegionOf(layout, PhysicalDrivePath(disk)) == OnDisk(Identity(disk, 0))
    ensures RawTarget(disk, partition) in layout ==>
              RegionOf(layout, PartitionDevicePath(disk, partition)) == OnDisk(Identity(disk, layout[RawTarget(disk, partition)]))
    ensures RawTarget(disk, partition) !in layout ==> RegionOf(layout, PartitionDevicePath(disk, partition)).Named?
  {
    hide ParseRawTarget, PhysicalDrivePath, PartitionDevicePath;
    DriveParses(disk);
    PartitionParses(disk, partition);
  }

  /** Two partitions name the same region exactly when they start at the same place of the same disk, and
      a partition and a disk exactly when the partition starts where that disk does. */
  lemma SameRegionOfPaths(layout: Layout, disk: nat, partition: nat, disk': nat, partition': nat)
    requires disk <= 0x7fff_ffff && disk' <= 0x7fff_ffff
    requires 0 < partition <= 0x7fff_ffff && 0 < partition' <= 0x7fff_ffff
    requires RawTarget(disk, partition) in layout && RawTarget(disk', partition') in layout
    ensures RegionOf(layout, PartitionDevicePath(disk, partition)) == RegionOf(layout, PartitionDevicePath(disk', partition')) <==>
            disk == disk' && layout[RawTarget(disk, partition)] == layout[RawTarget(disk', partition')]
    ensures RegionOf(layout, PartitionDevicePath(disk, partition)) == RegionOf(layout, PhysicalDrivePath(disk')) <==>
            disk == disk' && layout[RawTarget(disk, partition)] == 0
    ensures RegionOf(layout, PhysicalDrivePath(disk)) == RegionOf(layout, PhysicalDrivePath(disk')) <==> disk == disk'
  {
    hide RegionOf, PhysicalDrivePath, PartitionDevicePath;
    PathRegions(layout, disk, partition);
    PathRegions(layout, disk', partition');
  }

  /** Any other target, and a partition that does not exist, shares its region only with its own spellings. */
  lemma UnknownTargets(layout: Layout, target: string, other: string)
    requires match ParseRawTarget(target) case None => true case Some(raw) => raw.partition != 0 && raw !in layout
    ensures RegionOf(layout, target) == RegionOf(layout, other) <==> Lower(target) == Lower(other)
  {
    hide ParseRawTarget, Lower;
    SpellingsAgree(layout, target, other);
  }

  /** Scanned volumes have one region exactly when they start at one place. */
  lemma SameRegionOfVolumes(layout: Layout, volumes: seq<Volume>, u: Volume, v: Volume)
    requires ScanOf(layout, volumes) && u in volumes && v in volumes
    ensures RegionOf(layout, u.target) == RegionOf(layout, v.target) <==>
            && u.disk == v.disk
            && (if u.partition == 0 then 0 else u.offset) == (if v.partition == 0 then 0 else v.offset)
  {
    hide RegionOf, PhysicalDrivePath, PartitionDevicePath;
    VolumeRegion(layout, volumes, u);
    VolumeRegion(layout, volumes, v);
  }

  lemma VolumeRegion(layout: Layout, volumes: seq<Volume>, v: Volume)
    requires ScanOf(layout, volumes) && v in volumes
    ensures RegionOf(layout, v.target) == OnDisk(Identity(v.disk, if v.partition == 0 then 0 else v.offset))
  {
    hide RegionOf, PhysicalDrivePath, PartitionDevicePath;
    PathRegions(layout, v.disk, if v.partition == 0 then 1 else v.partition);
  }
}
