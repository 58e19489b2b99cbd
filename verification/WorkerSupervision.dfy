/** The service's workers (src/service/apfs_mount_service.cpp): one process for each runnable mount,
    started, kept, restarted and stopped as the configuration and the disks change. */
module WorkerSupervision {
  import opened Common
  import opened DriveLetters
  import opened MountAliases
  import opened RawTargets
  import opened Text

  datatype Process = NoProcess | Running(pid: nat) | Exited(pid: nat)

  datatype Worker = Worker(config: MountConfig, process: Process, lastStart: Option<int>, startCount: nat, failedStartCount: nat)

  /** How long after a start attempt the supervisor leaves a worker alone, in milliseconds. */
  const RESTART_DELAY := 5000

  /** A process of the system, and the region it serves. */
  datatype LiveProcess = LiveProcess(pid: nat, region: Region)

  function NewWorker(config: MountConfig): Worker {
    Worker(config, NoProcess, None, 0, 0)
  }

  predicate SameWorkerConfig(left: MountConfig, right: MountConfig) {
    && Lower(left.target) == Lower(right.target) && Lower(left.mount) == Lower(right.mount)
    && left.readOnly == right.readOnly && left.allowRawWrites == right.allowRawWrites
    && left.enabled == right.enabled
  }

  predicate ContainsConfig(configs: seq<MountConfig>, wanted: MountConfig) {
    exists config :: config in configs && SameWorkerConfig(config, wanted)
  }

  predicate ContainsWorker(workers: seq<Worker>, wanted: MountConfig) {
    exists worker :: worker in workers && SameWorkerConfig(worker.config, wanted)
  }

  /** No region has two workers. */
  ghost predicate Exclusive(layout: Layout, workers: seq<Worker>) {
    forall i, j :: 0 <= i < j < |workers| ==>
      RegionOf(layout, workers[i].config.target) != RegionOf(layout, workers[j].config.target)
  }

  function Runnable(mounts: seq<MountConfig>, available: string -> bool): (r: seq<MountConfig>) {
    if mounts == [] then []
    else
      var last := mounts[|mounts| - 1];
      var rest := Runnable(mounts[..|mounts| - 1], available);
      if last.enabled && available(last.target) then rest + [last] else rest
  }

  /** The workers that a new configuration keeps, as they are. */
  function Kept(workers: seq<Worker>, desired: seq<MountConfig>): (r: seq<Worker>) {
    if workers == [] then []
    else
      var last := workers[|workers| - 1];
      var rest := Kept(workers[..|workers| - 1], desired);
      if ContainsConfig(desired, last.config) then rest + [last] else rest
  }

  function ConfigsOf(workers: seq<Worker>): (r: seq<MountConfig>)
    ensures |r| == |workers|
  {
    seq(|workers|, i requires 0 <= i < |workers| => workers[i].config)
  }

  lemma DistinctAppend(layout: Layout, mounts: seq<MountConfig>, last: MountConfig)
    requires DistinctRegions(layout, mounts)
    requires forall m :: m in mounts ==> RegionOf(layout, m.target) != RegionOf(layout, last.target)
    ensures DistinctRegions(layout, mounts + [last])
  {
    hide RegionOf;
  }

  lemma NothingIsDistinct(layout: Layout)
    ensures DistinctRegions(layout, [])
  {
  }

  lemma DistinctFront(layout: Layout, mounts: seq<MountConfig>)
    requires mounts != [] && DistinctRegions(layout, mounts)
    ensures DistinctRegions(layout, mounts[..|mounts| - 1])
    ensures forall m :: m in mounts[..|mounts| - 1] ==>
              RegionOf(layout, m.target) != RegionOf(layout, mounts[|mounts| - 1].target)
  {
    hide RegionOf;
  }

  lemma {:induction false} RunnableIsDistinct(layout: Layout, mounts: seq<MountConfig>, available: string -> bool)
    requires DistinctRegions(layout, mounts)
    ensures DistinctRegions(layout, Runnable(mounts, available))
    ensures forall m :: m in Runnable(mounts, available) <==> m in mounts && m.enabled && available(m.target)
  {
    hide RegionOf, DistinctRegions;
    if mounts == [] {
      NothingIsDistinct(layout);
    } else {
      var front, last := mounts[..|mounts| - 1], mounts[|mounts| - 1];
      DistinctFront(layout, mounts);
      RunnableIsDistinct(layout, front, available);
      var rest := Runnable(front, available);
      assert forall m :: m in rest ==> m in front;
      DistinctAppend(layout, rest, last);
      assert mounts == front + [last];
    }
  }

  lemma KeptOneMore(workers: seq<Worker>, n: nat, desired: seq<MountConfig>)
    requires n < |workers|
    ensures Kept(workers[..n + 1], desired) ==
            Kept(workers[..n], desired) + if ContainsConfig(desired, workers[n].config) then [workers[n]] else []
  {
    hide ContainsConfig;
    assert workers[..n + 1][..n] == workers[..n];
  }

  lemma NoneKept(desired: seq<MountConfig>)
    ensures Kept([], desired) == []
  {
  }

  lemma {:induction false} KeptAre(workers: seq<Worker>, desired: seq<MountConfig>)
    ensures forall w :: w in Kept(workers, desired) <==> w in workers && ContainsConfig(desired, w.config)
  {
    hide ContainsConfig;
    if workers != [] {
      KeptAre(workers[..|workers| - 1], desired);
      assert workers == workers[..|workers| - 1] + [workers[|workers| - 1]];
    }
  }

  /** Keeping goes worker by worker, in order. */
  lemma {:induction false} KeptInOrder(a: seq<Worker>, b: seq<Worker>, desired: seq<MountConfig>)
    ensures Kept(a + b, desired) == Kept(a, desired) + Kept(b, desired)
  {
    hide ContainsConfig;
    if b == [] {
      assert a + b == a;
    } else {
      KeptInOrder(a, b[..|b| - 1], desired);
      assert (a + b)[..|a + b| - 1] == a + b[..|b| - 1];
    }
  }

  /** A mount is run if it is enabled and its target can be opened, in the order of the mounts. */
  lemma {:induction false} RunnableInOrder(a: seq<MountConfig>, b: seq<MountConfig>, mount: MountConfig, available: string -> bool)
    ensures Runnable(a + b, available) == Runnable(a, available) + Runnable(b, available)
    ensures Runnable([mount], available) == if mount.enabled && available(mount.target) then [mount] else []
  {
    if b == [] {
      assert a + b == a;
      assert [mount][..0] == [];
    } else {
      RunnableInOrder(a, b[..|b| - 1], mount, available);
      assert (a + b)[..|a + b| - 1] == a + b[..|b| - 1];
    }
  }

  /** A configuration that no worker has is in a region that no worker has, as long as every worker
      has one of the desired configurations. */
  lemma MissingIsExclusive(layout: Layout, workers: seq<Worker>, desired: seq<MountConfig>, worker: Worker)
    requires Exclusive(layout, workers) && DistinctRegions(layout, desired)
    requires forall w :: w in workers ==> ContainsConfig(desired, w.config)
    requires worker.config in desired && !ContainsWorker(workers, worker.config)
    ensures Exclusive(layout, workers + [worker])
  {
    hide RegionOf, Lower;
    forall i | 0 <= i < |workers|
      ensures RegionOf(layout, workers[i].config.target) != RegionOf(layout, worker.config.target)
    {
      var w := workers[i];
      assert w in workers;
      var d :| d in desired && SameWorkerConfig(d, w.config);
      SpellingsAgree(layout, d.target, w.config.target);
      var a :| 0 <= a < |desired| && desired[a] == d;
      var b :| 0 <= b < |desired| && desired[b] == worker.config;
      assert a != b;
    }
  }

  ghost predicate OneWorkerFor(workers: seq<Worker>, d: MountConfig) {
    && ContainsWorker(workers, d)
    && forall i, j ::
         (&& 0 <= i < |workers| && SameWorkerConfig(workers[i].config, d)
          && 0 <= j < |workers| && SameWorkerConfig(workers[j].config, d)) ==> i == j
  }

  ghost predicate OneConfigFor(desired: seq<MountConfig>, config: MountConfig) {
    && ContainsConfig(desired, config)
    && forall i, j ::
         (&& 0 <= i < |desired| && SameWorkerConfig(desired[i], config)
          && 0 <= j < |desired| && SameWorkerConfig(desired[j], config)) ==> i == j
  }

  /** Every worker has one desired configuration and every desired configuration one worker. */
  ghost predicate OneToOne(workers: seq<Worker>, desired: seq<MountConfig>) {
    && (forall w :: w in workers ==> OneConfigFor(desired, w.config))
    && (forall d :: d in desired ==> OneWorkerFor(workers, d))
  }

  lemma ExclusiveIsOneToOne(layout: Layout, workers: seq<Worker>, desired: seq<MountConfig>)
    requires Exclusive(layout, workers) && DistinctRegions(layout, desired)
    requires forall w :: w in workers ==> ContainsConfig(desired, w.config)
    requires forall d :: d in desired ==> ContainsWorker(workers, d)
    ensures OneToOne(workers, desired)
  {
    hide RegionOf, Lower;
    forall i, d | 0 <= i < |workers| && d in desired && SameWorkerConfig(workers[i].config, d)
      ensures RegionOf(layout, workers[i].config.target) == RegionOf(layout, d.target)
    {
      SpellingsAgree(layout, workers[i].config.target, d.target);
    }
    forall i, w | 0 <= i < |desired| && w in workers && SameWorkerConfig(desired[i], w.config)
      ensures RegionOf(layout, desired[i].target) == RegionOf(layout, w.config.target)
    {
      SpellingsAgree(layout, desired[i].target, w.config.target);
    }
  }

  lemma SameConfigIff(left: MountConfig, right: MountConfig)
    ensures SameWorkerConfig(left, right) <==>
            && Lower(left.target) == Lower(right.target) && Lower(left.mount) == Lower(right.mount)
            && left.readOnly == right.readOnly && left.allowRawWrites == right.allowRawWrites
            && left.enabled == right.enabled
  {
  }

  /** A worker stays if one of the new configurations has its target and its mount in any case and its
      three flags. */
  lemma KeptStays(before: seq<Worker>, desired: seq<MountConfig>, w: Worker, d: MountConfig)
    requires w in before && d in desired
    requires Lower(d.target) == Lower(w.config.target) && Lower(d.mount) == Lower(w.config.mount)
    requires d.readOnly == w.config.readOnly && d.allowRawWrites == w.config.allowRawWrites
    requires d.enabled == w.config.enabled
    ensures w in Kept(before, desired)
  {
    hide SameWorkerConfig, Kept;
    KeptAre(before, desired);
    SameConfigIff(d, w.config);
  }

  /** Every new configuration has a worker with its settings. */
  lemma OneToOneServes(workers: seq<Worker>, desired: seq<MountConfig>, d: MountConfig) returns (w: Worker)
    requires OneToOne(workers, desired) && d in desired
    ensures w in workers && Lower(d.target) == Lower(w.config.target) && Lower(d.mount) == Lower(w.config.mount)
    ensures d.readOnly == w.config.readOnly && d.allowRawWrites == w.config.allowRawWrites
    ensures d.enabled == w.config.enabled
  {
    hide SameWorkerConfig, OneConfigFor;
    assert OneWorkerFor(workers, d);
    w :| w in workers && SameWorkerConfig(w.config, d);
    SameConfigIff(w.config, d);
  }

  /** What the correspondence means field by field. */
  lemma OneToOneMeans(before: seq<Worker>, workers: seq<Worker>, desired: seq<MountConfig>)
    requires OneToOne(workers, desired) && Kept(before, desired) <= workers
    ensures forall d :: d in desired ==>
              exists w :: && w in workers && Lower(d.target) == Lower(w.config.target) && Lower(d.mount) == Lower(w.config.mount)
                          && d.readOnly == w.config.readOnly && d.allowRawWrites == w.config.allowRawWrites
                          && d.enabled == w.config.enabled
    ensures forall w, d ::
              (&& w in before && d in desired && Lower(d.target) == Lower(w.config.target) && Lower(d.mount) == Lower(w.config.mount)
               && d.readOnly == w.config.readOnly && d.allowRawWrites == w.config.allowRawWrites
               && d.enabled == w.config.enabled) ==> w in workers
  {
    hide Lower, Kept, OneToOne;
    forall d | d in desired
      ensures exists w :: && w in workers && Lower(d.target) == Lower(w.config.target) && Lower(d.mount) == Lower(w.config.mount)
                          && d.readOnly == w.config.readOnly && d.allowRawWrites == w.config.allowRawWrites
                          && d.enabled == w.config.enabled
    {
      var w := OneToOneServes(workers, desired, d);
    }
    forall w, d |
      && w in before && d in desired && Lower(d.target) == Lower(w.config.target) && Lower(d.mount) == Lower(w.config.mount)
      && d.readOnly == w.config.readOnly && d.allowRawWrites == w.config.allowRawWrites
      && d.enabled == w.config.enabled
      ensures w in workers
    {
      KeptStays(before, desired, w, d);
    }
  }

  // One configuration and one scan

  /** What a round of reading and starting meets: the configured mounts, or an error; what a scan
      finds; the letters in use; which targets can be opened; which starts work. */
  datatype World = World(config: Option<seq<MountConfig>>, volumes: seq<Volume>, drives: set<char>,
                         available: string -> bool, starts: string -> Option<nat>)

  /** The mounts in force: the configured ones without aliases, then the discovered ones. */
  ghost predicate InForce(layout: Layout, world: World, preferred: seq<MountConfig>, canonical: seq<MountConfig>,
                          mounts: seq<MountConfig>)
    requires world.config.Some?
  {
    && CanonicalOf(layout, world.volumes, world.config.value, canonical)
    && canonical <= mounts && Added(layout, world.volumes, preferred, mounts, |canonical|)
  }

  /** Reads the configuration and adds what the scan has found. A configured region is never lost, and
      a discovered volume is missing only for want of a letter. */
  method ReadMountConfigWithAutoDiscovery(layout: Layout, world: World, preferred: seq<MountConfig>)
    returns (mounts: Option<seq<MountConfig>>, ghost canonical: seq<MountConfig>, ghost unplaced: seq<Volume>,
             ghost used: set<char>)
    requires ScanOf(layout, world.volumes)
    ensures mounts == None <==> world.config == None
    ensures mounts.Some? ==>
              && DistinctRegions(layout, mounts.value) && InForce(layout, world, preferred, canonical, mounts.value)
              && AllPlaced(layout, mounts.value, world.volumes, unplaced)
              && NoPlaceFor(layout, canonical, world.volumes, preferred, unplaced, used)
              && LettersGiven(preferred, mounts.value, |canonical|, world.drives + LettersOf(canonical), used)
              && |canonical| <= |mounts.value|
              && LettersExact(layout, world.volumes, preferred, canonical, mounts.value, world.drives + LettersOf(canonical), used)
    ensures mounts.Some? ==> forall m :: m in world.config.value ==> RegionOf(layout, m.target) in Regions(layout, mounts.value)
  {
    hide ScanOf, RegionOf, Added, AllPlaced, NoPlaceFor, LettersGiven, LettersExact, CanonicalOf, ChosenFrom, LettersOf;
    canonical, unplaced, used := [], [], {};
    if world.config == None {
      return None, [], [], {};
    }
    var table := new MountTable(world.config.value);
    ghost var choice;
    var aliasesChanged, mountsAdded, left;
    aliasesChanged, choice := table.CanonicalizeDiscoveredMountAliases(layout, world.volumes);
    canonical := table.mounts;
    mountsAdded, left, used := table.MergeDiscoveredMounts(layout, world.volumes, world.drives, preferred);
    unplaced := left;
    AddedKeepsDistinct(layout, world.volumes, preferred, canonical, table.mounts);
    assert forall i :: 0 <= i < |canonical| ==>
        Regions(layout, table.mounts)[i] == Regions(layout, canonical)[i];
    mounts := Some(table.mounts);
  }

  method RunnableMounts(mounts: seq<MountConfig>, available: string -> bool) returns (runnable: seq<MountConfig>)
    ensures runnable == Runnable(mounts, available)
  {
    runnable := [];
    var i := 0;
    while i < |mounts|
      invariant i <= |mounts| && runnable == Runnable(mounts[..i], available)
    {
      assert mounts[..i + 1][..i] == mounts[..i];
      if mounts[i].enabled && available(mounts[i].target) {
        runnable := runnable + [mounts[i]];
      }
      i := i + 1;
    }
    assert mounts[..i] == mounts;
  }

  /** Everything that can happen while the service runs. */
  datatype Event =
    | Sync(world: World, now: int)
    | Supervise(exits: nat -> bool, starts: string -> Option<nat>, now: int)

  /** The workers there are and the processes that live. */
  datatype Moment = Moment(workers: seq<Worker>, live: multiset<LiveProcess>)

  ghost function LiveBehind(layout: Layout, worker: Worker): multiset<LiveProcess> {
    match worker.process
    case Running(pid) => multiset{LiveProcess(pid, RegionOf(layout, worker.config.target))}
    case _ => multiset{}
  }

  /** The processes that the workers stand for. */
  ghost function LiveOf(layout: Layout, workers: seq<Worker>): multiset<LiveProcess> {
    if workers == [] then multiset{}
    else LiveOf(layout, workers[..|workers| - 1]) + LiveBehind(layout, workers[|workers| - 1])
  }

  /** No region is served by two processes. */
  ghost predicate AtMostOne(live: multiset<LiveProcess>) {
    && (forall a :: a in live ==> live[a] == 1)
    && (forall a, b :: a in live && b in live && a.region == b.region ==> a == b)
  }

  ghost predicate Sound(layout: Layout, m: Moment) {
    Exclusive(layout, m.workers) && AtMostOne(m.live)
  }

  class Service {
    var workers: seq<Worker>
    /** The worker processes that live: a start adds one, an exit or a stop takes one away. */
    ghost var live: multiset<LiveProcess>
    /** Everything there has been, in order. */
    ghost var moments: seq<Moment>

    constructor ()
      ensures workers == [] && live == multiset{} && moments == [Moment([], multiset{})]
      ensures forall layout :: Valid(layout)
    {
      workers, live, moments := [], multiset{}, [Moment([], multiset{})];
    }

    /** The list and the system agree, and at no moment so far has a region had two workers or two
        processes. */
    ghost predicate Valid(layout: Layout)
      reads this
    {
      && moments != [] && Moment(workers, live) == moments[|moments| - 1]
      && live == LiveOf(layout, workers)
      && forall k :: 0 <= k < |moments| ==> Sound(layout, moments[k])
    }

    ghost method Record(layout: Layout)
      requires moments != [] && forall k :: 0 <= k < |moments| ==> Sound(layout, moments[k])
      requires Exclusive(layout, workers) && live == LiveOf(layout, workers)
      modifies this`moments
      ensures Valid(layout) && moments == old(moments) + [Moment(workers, live)]
    {
      hide Exclusive, LiveOf, AtMostOne;
      LiveIsAtMostOne(layout, workers);
      moments := moments + [Moment(workers, live)];
    }

    // One worker

    /** A start attempt, which the system answers with a process or with nothing. */
    method StartWorker(layout: Layout, worker: Worker, process: Option<nat>, now: int) returns (started: Worker)
      modifies this`live
      ensures started.config == worker.config && started.lastStart == Some(now)
      ensures match process
              case Some(pid) =>
                && started.process == Running(pid)
                && started.startCount == worker.startCount + 1 && started.failedStartCount == 0
                && live == old(live) + multiset{LiveProcess(pid, RegionOf(layout, worker.config.target))}
              case None =>
                && started.process == NoProcess && live == old(live)
                && started.startCount == worker.startCount && started.failedStartCount == worker.failedStartCount + 1
      ensures live == old(live) + LiveBehind(layout, started)
    {
      hide RegionOf;
      started := worker.(lastStart := Some(now));
      if process == None {
        started := started.(process := NoProcess, failedStartCount := worker.failedStartCount + 1);
        return;
      }
      live := live + multiset{LiveProcess(process.value, RegionOf(layout, worker.config.target))};
      started := started.(process := Running(process.value), startCount := worker.startCount + 1, failedStartCount := 0);
    }

    /** A stop ends the process, if there is one. */
    method StopWorker(layout: Layout, worker: Worker) returns (stopped: Worker)
      modifies this`live
      ensures stopped.config == worker.config && !stopped.process.Running?
      ensures live == old(live) - LiveBehind(layout, worker) && LiveBehind(layout, stopped) == multiset{}
    {
      if !worker.process.Running? {
        return worker;
      }
      live := live - LiveBehind(layout, worker);
      stopped := worker.(process := Exited(worker.process.pid));
    }

    /** A process ends by itself. */
    ghost method ProcessExits(layout: Layout, worker: Worker)
      modifies this`live
      ensures live == old(live) - LiveBehind(layout, worker)
    {
      live := live - LiveBehind(layout, worker);
    }

    /** What supervision does with a worker whose process has ended: it is started again, unless an
        attempt was made in the last five seconds. */
    method RestartEnded(layout: Layout, worker: Worker, process: Option<nat>, now: int)
      returns (after: Worker, ghost attempts: nat)
      modifies this`live
      ensures after.config == worker.config && AnsweredEnd(worker, after, attempts, process, now)
      ensures live == old(live) + LiveBehind(layout, after)
    {
      hide LiveBehind, RegionOf;
      after, attempts := worker.(process := NoProcess), 0;
      NothingBehind(layout, after);
      if worker.lastStart.Some? && now - worker.lastStart.value < RESTART_DELAY {
        return;
      }
      after := StartWorker(layout, after, process, now);
      attempts := 1;
    }

    /** One turn of supervision. A process that runs is left alone. */
    method SuperviseWorker(layout: Layout, worker: Worker, exits: bool, process: Option<nat>, now: int)
      returns (after: Worker, ghost attempts: nat)
      requires LiveBehind(layout, worker) <= live
      modifies this`live
      ensures after.config == worker.config
      ensures worker.process.Running? && !exits ==> after == worker && attempts == 0
      ensures !worker.process.Running? || exits ==> AnsweredEnd(worker, after, attempts, process, now)
      ensures live == old(live) - LiveBehind(layout, worker) + LiveBehind(layout, after)
    {
      hide LiveBehind, RegionOf, AnsweredEnd;
      if worker.process.Running? && !exits {
        return worker, 0;
      }
      if exits {
        ProcessExits(layout, worker);
      } else {
        NothingBehind(layout, worker);
      }
      after, attempts := RestartEnded(layout, worker, process, now);
    }

    // The list of workers

    /** Puts a worker in the place of one of the same configuration. */
    ghost method Replaced(layout: Layout, before: seq<Worker>, i: nat)
      requires moments != [] && (forall k :: 0 <= k < |moments| ==> Sound(layout, moments[k]))
      requires i < |before| == |workers| && workers == before[i := workers[i]]
      requires Exclusive(layout, before) && workers[i].config == before[i].config
      requires live == LiveOf(layout, before) - LiveBehind(layout, before[i]) + LiveBehind(layout, workers[i])
      modifies this`moments
      ensures Valid(layout) && moments == old(moments) + [Moment(workers, live)]
    {
      hide Exclusive, LiveOf, LiveBehind, Sound;
      SameConfigsExclusive(layout, before, workers);
      LiveUpdate(layout, before, i, workers[i]);
      Record(layout);
    }

    /** The first loop of a sync: workers that are no longer wanted stop and go. */
    method RemoveUnwanted(layout: Layout, desired: seq<MountConfig>)
      requires Valid(layout)
      modifies this
      ensures Valid(layout) && workers == Kept(old(workers), desired) && old(moments) <= moments
    {
      hide Exclusive, ContainsConfig, Kept, LiveOf, LiveBehind, Sound;
      ghost var seen := 0;
      ghost var before := workers;
      NoneKept(desired);
      var i := 0;
      while i < |workers|
        invariant Valid(layout) && old(moments) <= moments
        invariant seen <= |before| && i <= |workers|
        invariant workers[..i] == Kept(before[..seen], desired) && workers[i..] == before[seen..]
        decreases |workers| - i
      {
        KeptOneMore(before, seen, desired);
        assert workers[i] == workers[i..][0] == before[seen];
        assert workers[i + 1..] == workers[i..][1..] == before[seen + 1..];
        seen := seen + 1;
        if ContainsConfig(desired, workers[i].config) {
          assert workers[..i + 1] == workers[..i] + [workers[i]];
          i := i + 1;
          continue;
        }
        RemoveAt(layout, i);
      }
      assert before[..seen] == before && workers[..i] == workers;
    }

    /** Stops a worker and drops it. */
    method RemoveAt(layout: Layout, i: nat)
      requires Valid(layout) && i < |workers|
      modifies this
      ensures Valid(layout) && old(moments) <= moments
      ensures workers == old(workers)[..i] + old(workers)[i + 1..]
      ensures workers[..i] == old(workers)[..i] && workers[i..] == old(workers)[i + 1..]
    {
      hide Exclusive, LiveOf, LiveBehind, Sound;
      ghost var whole := workers;
      LiveAt(layout, workers, i);
      LastIsSound(layout);
      var stopped := StopWorker(layout, workers[i]);
      workers := workers[i := stopped];
      Replaced(layout, whole, i);
      LastIsSound(layout);
      RemovalIsExclusive(layout, workers, i);
      LiveRemoved(layout, workers, i);
      workers := workers[..i] + workers[i + 1..];
      Record(layout);
    }

    lemma LastIsSound(layout: Layout)
      requires Valid(layout)
      ensures Exclusive(layout, workers)
    {
    }

    /** One turn of the second loop of a sync. */
    method AddIfMissing(layout: Layout, desired: seq<MountConfig>, mount: MountConfig, starts: string -> Option<nat>, now: int)
      requires Valid(layout) && DistinctRegions(layout, desired) && mount in desired && Wanted(workers, desired)
      modifies this
      ensures Valid(layout) && Wanted(workers, desired) && old(moments) <= moments
      ensures workers == if ContainsWorker(old(workers), mount) then old(workers)
                         else old(workers) + [JustStarted(mount, starts(mount.target), now)]
      ensures ContainsWorker(workers, mount)
    {
      hide Exclusive, DistinctRegions, SameWorkerConfig, LiveOf, Sound;
      if ContainsWorker(workers, mount) {
        return;
      }
      LastIsSound(layout);
      var worker := StartWorker(layout, NewWorker(mount), starts(mount.target), now);
      MissingIsExclusive(layout, workers, desired, worker);
      SameAsItself(mount);
      LiveAppend(layout, workers, worker);
      workers := workers + [worker];
      assert worker in workers;
      Record(layout);
    }

    /** The second loop of a sync: what is wanted and has no worker gets one. */
    method AddMissing(layout: Layout, desired: seq<MountConfig>, starts: string -> Option<nat>, now: int)
      requires Valid(layout) && DistinctRegions(layout, desired) && Wanted(workers, desired)
      modifies this
      ensures Valid(layout) && old(moments) <= moments
      ensures OneToOne(workers, desired) && old(workers) <= workers
      ensures Launched(old(workers), workers, desired, starts, now)
    {
      hide Exclusive, DistinctRegions, SameWorkerConfig, OneToOne, ContainsWorker, ContainsConfig, Launched, Wanted,
        LiveOf, Sound;
      NoneLaunched(workers, desired, starts, now);
      var i := 0;
      while i < |desired|
        invariant i <= |desired| && Valid(layout) && old(moments) <= moments
        invariant old(workers) <= workers && Wanted(workers, desired)
        invariant forall j :: 0 <= j < i ==> ContainsWorker(workers, desired[j])
        invariant Launched(old(workers), workers, desired, starts, now)
      {
        ghost var before := workers;
        AddIfMissing(layout, desired, desired[i], starts, now);
        ContainsGrows(old(workers), before, workers);
        OneLaunched(old(workers), before, workers, desired, desired[i], starts, now);
        i := i + 1;
      }
      WantedMeans(workers, desired);
      LastIsSound(layout);
      ExclusiveIsOneToOne(layout, workers, desired);
    }

    /** A sync. An unreadable configuration changes nothing. Otherwise the wanted workers stay as they
        are, in order, and the others make room for the new ones; in the end workers and runnable
        configurations correspond one to one. */
    method SyncConfiguredWorkers(layout: Layout, world: World, now: int)
      returns (ghost desired: seq<MountConfig>, ghost mounts: seq<MountConfig>, ghost canonical: seq<MountConfig>)
      requires Valid(layout) && ScanOf(layout, world.volumes)
      modifies this
      ensures Valid(layout) && old(moments) <= moments
      ensures world.config == None ==> workers == old(workers) && live == old(live) && moments == old(moments)
      ensures world.config.Some? ==>
                && InForce(layout, world, ConfigsOf(old(workers)), canonical, mounts)
                && desired == Runnable(mounts, world.available)
                && DistinctRegions(layout, desired) && OneToOne(workers, desired)
                && Kept(old(workers), desired) <= workers
                && Launched(Kept(old(workers), desired), workers, desired, world.starts, now)
      ensures forall d :: d in desired ==> d.enabled && world.available(d.target)
      ensures world.config.Some? ==> forall w, d ::
                (&& w in old(workers) && d in desired
                 && Lower(d.target) == Lower(w.config.target) && Lower(d.mount) == Lower(w.config.mount)
                 && d.readOnly == w.config.readOnly && d.allowRawWrites == w.config.allowRawWrites
                 && d.enabled == w.config.enabled) ==> w in workers
      ensures world.config.Some? ==> forall d :: d in desired ==>
                exists w :: && w in workers
                            && Lower(d.target) == Lower(w.config.target) && Lower(d.mount) == Lower(w.config.mount)
                            && d.readOnly == w.config.readOnly && d.allowRawWrites == w.config.allowRawWrites
                            && d.enabled == w.config.enabled
    {
      hide Lower, Exclusive, DistinctRegions, SameWorkerConfig, OneToOne, ContainsWorker, ContainsConfig, LiveOf, Sound,
        Launched, Kept, Runnable, ScanOf, InForce, AllPlaced, NoPlaceFor, LettersGiven, LettersExact, LettersOf, Regions;
      var read;
      ghost var unplaced, used;
      read, canonical, unplaced, used := ReadMountConfigWithAutoDiscovery(layout, world, ConfigsOf(workers));
      if read == None {
        return [], [], [];
      }
      var runnable := RunnableMounts(read.value, world.available);
      RunnableIsDistinct(layout, read.value, world.available);
      mounts, desired := read.value, runnable;
      LastIsSound(layout);
      KeptAre(workers, desired);
      RemoveUnwanted(layout, runnable);
      WantedIfContained(workers, desired);
      AddMissing(layout, runnable, world.starts, now);
      OneToOneMeans(old(workers), workers, desired);
    }

    /** The start of the service: the same with nothing to keep. */
    method StartConfiguredWorkers(layout: Layout, world: World, now: int)
      returns (ghost desired: seq<MountConfig>, ghost mounts: seq<MountConfig>, ghost canonical: seq<MountConfig>)
      requires Valid(layout) && ScanOf(layout, world.volumes) && workers == []
      modifies this
      ensures Valid(layout) && old(moments) <= moments
      ensures ConfigsOf(workers) == desired
      ensures forall k :: 0 <= k < |workers| ==>
                workers[k] == match world.starts(desired[k].target)
                              case Some(pid) => Worker(desired[k], Running(pid), Some(now), 1, 0)
                              case None => Worker(desired[k], NoProcess, Some(now), 0, 1)
      ensures world.config == None ==> desired == []
      ensures world.config.Some? ==>
                InForce(layout, world, [], canonical, mounts) && desired == Runnable(mounts, world.available)
      ensures forall d :: d in desired ==> d.enabled && world.available(d.target)
    {
      hide Exclusive, DistinctRegions, Runnable, ScanOf, InForce, AllPlaced, NoPlaceFor, LettersGiven, LettersExact,
        LettersOf, Regions, LiveOf, Sound;
      var read;
      ghost var unplaced, used;
      read, canonical, unplaced, used := ReadMountConfigWithAutoDiscovery(layout, world, []);
      if read == None {
        return [], [], [];
      }
      var runnable := RunnableMounts(read.value, world.available);
      RunnableIsDistinct(layout, read.value, world.available);
      mounts, desired := read.value, runnable;
      StartAll(layout, runnable, world.starts, now);
    }

    /** The loop of the start. */
    method StartAll(layout: Layout, runnable: seq<MountConfig>, starts: string -> Option<nat>, now: int)
      requires Valid(layout) && workers == [] && DistinctRegions(layout, runnable)
      modifies this
      ensures Valid(layout) && old(moments) <= moments && ConfigsOf(workers) == runnable
      ensures forall k :: 0 <= k < |workers| ==> workers[k] == JustStarted(runnable[k], starts(runnable[k].target), now)
    {
      hide Exclusive, DistinctRegions, LiveOf, Sound;
      var i := 0;
      while i < |runnable|
        invariant i <= |runnable| && Valid(layout) && old(moments) <= moments && |workers| == i
        invariant forall k :: 0 <= k < i ==> workers[k] == JustStarted(runnable[k], starts(runnable[k].target), now)
      {
        var worker := StartWorker(layout, NewWorker(runnable[i]), starts(runnable[i].target), now);
        LiveAppend(layout, workers, worker);
        workers := workers + [worker];
        i := i + 1;
        PrefixIsExclusive(layout, workers, runnable);
        Record(layout);
      }
      assert ConfigsOf(workers) == runnable;
    }

    /** One turn of supervision, in the list. */
    method SuperviseAt(layout: Layout, i: nat, exits: bool, process: Option<nat>, now: int) returns (ghost attempts: nat)
      requires Valid(layout) && i < |workers|
      modifies this
      ensures Valid(layout) && old(moments) <= moments
      ensures |workers| == |old(workers)| && workers == old(workers)[i := workers[i]]
      ensures old(workers)[i].process.Running? && !exits ==> workers[i] == old(workers)[i] && attempts == 0
      ensures !old(workers)[i].process.Running? || exits ==>
                AnsweredEnd(old(workers)[i], workers[i], attempts, process, now)
    {
      hide Exclusive, LiveOf, LiveBehind, Sound;
      ghost var before := workers;
      LiveAt(layout, workers, i);
      LastIsSound(layout);
      var worker;
      worker, attempts := SuperviseWorker(layout, workers[i], exits, process, now);
      workers := workers[i := worker];
      Replaced(layout, before, i);
    }

    /** A round of supervision. A worker whose process runs is unchanged; one whose process has ended, or
        that has none, gets exactly one start attempt, or none if the last attempt is less than five
        seconds old. */
    method SuperviseWorkers(layout: Layout, exits: nat -> bool, starts: string -> Option<nat>, now: int)
      returns (ghost attempts: seq<nat>)
      requires Valid(layout)
      modifies this
      ensures Valid(layout) && old(moments) <= moments && |workers| == |old(workers)| == |attempts|
      ensures forall k :: 0 <= k < |workers| && old(workers)[k].process.Running? && !exits(k) ==>
                workers[k] == old(workers)[k] && attempts[k] == 0
      ensures forall k :: 0 <= k < |workers| && (!old(workers)[k].process.Running? || exits(k)) ==>
                var w := old(workers)[k];
                if w.lastStart.Some? && now - w.lastStart.value < 5000 then
                  attempts[k] == 0 && workers[k] == Worker(w.config, NoProcess, w.lastStart, w.startCount, w.failedStartCount)
                else
                  && attempts[k] == 1
                  && workers[k] == match starts(w.config.target)
                                   case Some(pid) => Worker(w.config, Running(pid), Some(now), w.startCount + 1, 0)
                                   case None => Worker(w.config, NoProcess, Some(now), w.startCount, w.failedStartCount + 1)
    {
      hide Exclusive, LiveOf, LiveBehind, Sound;
      attempts := [];
      var i := 0;
      while i < |workers|
        invariant i <= |workers| == |old(workers)| && Valid(layout) && old(moments) <= moments && |attempts| == i
        invariant forall k :: 0 <= k < i && old(workers)[k].process.Running? && !exits(k) ==>
                    workers[k] == old(workers)[k] && attempts[k] == 0
        invariant forall k :: 0 <= k < i && (!old(workers)[k].process.Running? || exits(k)) ==>
                    AnsweredEnd(old(workers)[k], workers[k], attempts[k], starts(old(workers)[k].config.target), now)
        invariant workers[i..] == old(workers)[i..]
      {
        assert workers[i] == workers[i..][0] == old(workers)[i];
        ghost var n := SuperviseAt(layout, i, exits(i), starts(workers[i].config.target), now);
        attempts := attempts + [n];
        i := i + 1;
      }
    }

    method StopWorkers(layout: Layout)
      requires Valid(layout)
      modifies this
      ensures Valid(layout) && old(moments) <= moments && workers == [] && live == multiset{}
    {
      hide Exclusive, LiveOf, LiveBehind, Sound;
      var i := 0;
      while i < |workers|
        invariant i <= |workers| && Valid(layout) && old(moments) <= moments
        invariant forall k :: 0 <= k < i ==> !workers[k].process.Running?
      {
        ghost var before := workers;
        LiveAt(layout, workers, i);
        LastIsSound(layout);
        var stopped := StopWorker(layout, workers[i]);
        workers := workers[i := stopped];
        Replaced(layout, before, i);
        i := i + 1;
      }
      NoneLive(layout, workers);
      workers := [];
      NoneLive(layout, workers);
      NoWorkersExclusive(layout);
      Record(layout);
    }

    /** The service from start to stop, over disks that do not change: whatever configurations, scans,
        process deaths and failed starts it meets, at no moment do two processes serve one region; in the
        end none is left. */
    method Run(layout: Layout, start: World, now: int, events: seq<Event>)
      requires Valid(layout) && workers == [] && ScanOf(layout, start.volumes)
      requires forall e :: e in events && e.Sync? ==> ScanOf(layout, e.world.volumes)
      modifies this
      ensures Valid(layout) && old(moments) <= moments && workers == [] && live == multiset{}
      ensures forall k, a, b :: 0 <= k < |moments| && a in moments[k].live && b in moments[k].live && a.region == b.region ==>
                a == b && moments[k].live[a] == 1
    {
      hide Exclusive, LiveOf, RegionOf, ScanOf, InForce, Launched, OneToOne, Runnable, Kept, DistinctRegions, ConfigsOf;
      ghost var desired, mounts, canonical := StartConfiguredWorkers(layout, start, now);
      var i := 0;
      while i < |events|
        invariant i <= |events| && Valid(layout) && old(moments) <= moments
      {
        match events[i] {
          case Sync(world, time) =>
            desired, mounts, canonical := SyncConfiguredWorkers(layout, world, time);
          case Supervise(exits, starts, time) =>
            ghost var attempts := SuperviseWorkers(layout, exits, starts, time);
        }
        i := i + 1;
      }
      StopWorkers(layout);
    }
  }

  /** What supervision makes of a worker whose process has ended. */
  ghost predicate AnsweredEnd(w: Worker, after: Worker, attempts: nat, process: Option<nat>, now: int) {
    if w.lastStart.Some? && now - w.lastStart.value < 5000 then
      attempts == 0 && after == Worker(w.config, NoProcess, w.lastStart, w.startCount, w.failedStartCount)
    else
      && attempts == 1
      && after == match process
                  case Some(pid) => Worker(w.config, Running(pid), Some(now), w.startCount + 1, 0)
                  case None => Worker(w.config, NoProcess, Some(now), w.startCount, w.failedStartCount + 1)
  }

  /** A worker after its first start attempt. */
  function JustStarted(config: MountConfig, process: Option<nat>, now: int): Worker {
    match process
    case Some(pid) => Worker(config, Running(pid), Some(now), 1, 0)
    case None => Worker(config, NoProcess, Some(now), 0, 1)
  }

  // Processes and workers

  lemma NothingBehind(layout: Layout, worker: Worker)
    requires !worker.process.Running?
    ensures LiveBehind(layout, worker) == multiset{}
  {
  }

  lemma OneMoreIsAtMostOne(live: multiset<LiveProcess>, process: LiveProcess)
    requires AtMostOne(live) && forall a :: a in live ==> a.region != process.region
    ensures AtMostOne(live + multiset{process})
  {
  }

  lemma LiveAppend(layout: Layout, workers: seq<Worker>, worker: Worker)
    ensures LiveOf(layout, workers + [worker]) == LiveOf(layout, workers) + LiveBehind(layout, worker)
  {
    hide LiveBehind;
    assert (workers + [worker])[..|workers|] == workers;
  }

  lemma {:induction false} LiveConcat(layout: Layout, a: seq<Worker>, b: seq<Worker>)
    ensures LiveOf(layout, a + b) == LiveOf(layout, a) + LiveOf(layout, b)
  {
    hide LiveBehind;
    if b == [] {
      assert a + b == a;
    } else {
      var front, last := b[..|b| - 1], b[|b| - 1];
      LiveConcat(layout, a, front);
      assert a + b == (a + front) + [last];
      LiveAppend(layout, a + front, last);
    }
  }

  lemma LiveAt(layout: Layout, workers: seq<Worker>, i: nat)
    requires i < |workers|
    ensures LiveOf(layout, workers) ==
            LiveOf(layout, workers[..i]) + LiveBehind(layout, workers[i]) + LiveOf(layout, workers[i + 1..])
    ensures LiveBehind(layout, workers[i]) <= LiveOf(layout, workers)
  {
    hide LiveBehind, LiveOf;
    assert workers == workers[..i] + [workers[i]] + workers[i + 1..];
    LiveConcat(layout, workers[..i] + [workers[i]], workers[i + 1..]);
    LiveAppend(layout, workers[..i], workers[i]);
  }

  lemma LiveUpdate(layout: Layout, workers: seq<Worker>, i: nat, worker: Worker)
    requires i < |workers|
    ensures LiveOf(layout, workers[i := worker]) ==
            LiveOf(layout, workers) - LiveBehind(layout, workers[i]) + LiveBehind(layout, worker)
  {
    hide LiveBehind, LiveOf;
    var after := workers[i := worker];
    LiveAt(layout, workers, i);
    LiveAt(layout, after, i);
    assert after[..i] == workers[..i] && after[i + 1..] == workers[i + 1..];
  }

  lemma LiveRemoved(layout: Layout, workers: seq<Worker>, i: nat)
    requires i < |workers| && LiveBehind(layout, workers[i]) == multiset{}
    ensures LiveOf(layout, workers[..i] + workers[i + 1..]) == LiveOf(layout, workers)
  {
    hide LiveBehind, LiveOf;
    LiveAt(layout, workers, i);
    LiveConcat(layout, workers[..i], workers[i + 1..]);
  }

  lemma {:induction false} NoneLive(layout: Layout, workers: seq<Worker>)
    requires forall k :: 0 <= k < |workers| ==> !workers[k].process.Running?
    ensures LiveOf(layout, workers) == multiset{}
  {
    if workers != [] {
      NoneLive(layout, workers[..|workers| - 1]);
    }
  }

  /** A process that lives serves the region of some worker. */
  lemma {:induction false} LiveHasWorker(layout: Layout, workers: seq<Worker>, a: LiveProcess) returns (i: nat)
    requires a in LiveOf(layout, workers)
    ensures i < |workers| && RegionOf(layout, workers[i].config.target) == a.region
  {
    hide RegionOf;
    i := |workers| - 1;
    if a !in LiveBehind(layout, workers[i]) {
      i := LiveHasWorker(layout, workers[..i], a);
    }
  }

  lemma ExclusiveFront(layout: Layout, workers: seq<Worker>)
    requires workers != [] && Exclusive(layout, workers)
    ensures Exclusive(layout, workers[..|workers| - 1])
    ensures forall w :: w in workers[..|workers| - 1] ==>
              RegionOf(layout, w.config.target) != RegionOf(layout, workers[|workers| - 1].config.target)
  {
    hide RegionOf;
  }

  /** If no region has two workers, none has two processes. */
  lemma {:induction false} LiveIsAtMostOne(layout: Layout, workers: seq<Worker>)
    requires Exclusive(layout, workers)
    ensures AtMostOne(LiveOf(layout, workers))
  {
    hide RegionOf, Exclusive;
    if workers == [] {
    } else {
      hide AtMostOne;
      var front, last := workers[..|workers| - 1], workers[|workers| - 1];
      ExclusiveFront(layout, workers);
      LiveIsAtMostOne(layout, front);
      forall a | a in LiveOf(layout, front)
        ensures a.region != RegionOf(layout, last.config.target)
      {
        var i := LiveHasWorker(layout, front, a);
      }
      if last.process.Running? {
        OneMoreIsAtMostOne(LiveOf(layout, front), LiveProcess(last.process.pid, RegionOf(layout, last.config.target)));
      }
    }
  }

  lemma PrefixIsExclusive(layout: Layout, workers: seq<Worker>, desired: seq<MountConfig>)
    requires DistinctRegions(layout, desired) && |workers| <= |desired|
    requires forall k :: 0 <= k < |workers| ==> workers[k].config == desired[k]
    ensures Exclusive(layout, workers)
  {
    hide RegionOf;
  }

  lemma SameConfigsExclusive(layout: Layout, before: seq<Worker>, after: seq<Worker>)
    requires Exclusive(layout, before) && |after| == |before|
    requires forall k :: 0 <= k < |after| ==> after[k].config == before[k].config
    ensures Exclusive(layout, after)
  {
    hide RegionOf;
  }

  lemma NoWorkersExclusive(layout: Layout)
    ensures Exclusive(layout, [])
  {
  }

  ghost predicate Wanted(workers: seq<Worker>, desired: seq<MountConfig>) {
    forall w :: w in workers ==> ContainsConfig(desired, w.config)
  }

  /** The workers beyond the old ones have just been started, each for a desired configuration that no
      old worker has. */
  ghost predicate Launched(before: seq<Worker>, workers: seq<Worker>, desired: seq<MountConfig>,
                           starts: string -> Option<nat>, now: int)
  {
    forall k :: |before| <= k < |workers| ==>
      && workers[k].config in desired && !ContainsWorker(before, workers[k].config)
      && workers[k] == match starts(workers[k].config.target)
                       case Some(pid) => Worker(workers[k].config, Running(pid), Some(now), 1, 0)
                       case None => Worker(workers[k].config, NoProcess, Some(now), 0, 1)
  }

  lemma NoneLaunched(workers: seq<Worker>, desired: seq<MountConfig>, starts: string -> Option<nat>, now: int)
    ensures Launched(workers, workers, desired, starts, now)
  {
  }

  lemma OneLaunched(first: seq<Worker>, before: seq<Worker>, after: seq<Worker>, desired: seq<MountConfig>,
                    mount: MountConfig, starts: string -> Option<nat>, now: int)
    requires first <= before && Launched(first, before, desired, starts, now) && mount in desired
    requires after == if ContainsWorker(before, mount) then before
                      else before + [JustStarted(mount, starts(mount.target), now)]
    ensures Launched(first, after, desired, starts, now)
  {
    hide SameWorkerConfig;
    ContainsGrows(first, before, before);
  }

  lemma WantedIfContained(workers: seq<Worker>, desired: seq<MountConfig>)
    requires forall w :: w in workers ==> ContainsConfig(desired, w.config)
    ensures Wanted(workers, desired)
  {
    hide ContainsConfig;
  }

  lemma WantedMeans(workers: seq<Worker>, desired: seq<MountConfig>)
    requires Wanted(workers, desired)
    ensures forall w :: w in workers ==> ContainsConfig(desired, w.config)
  {
  }

  lemma ContainsGrows(first: seq<Worker>, before: seq<Worker>, after: seq<Worker>)
    requires first <= before <= after
    ensures forall m :: ContainsWorker(first, m) ==> ContainsWorker(before, m)
    ensures forall m :: ContainsWorker(before, m) ==> ContainsWorker(after, m)
  {
    hide SameWorkerConfig;
    assert forall w :: w in first ==> w in before;
    assert forall w :: w in before ==> w in after;
  }

  lemma SameAsItself(config: MountConfig)
    ensures SameWorkerConfig(config, config)
  {
  }

  lemma RemovalIsExclusive(layout: Layout, workers: seq<Worker>, i: nat)
    requires i < |workers| && Exclusive(layout, workers)
    ensures Exclusive(layout, workers[..i] + workers[i + 1..])
  {
    hide RegionOf;
  }
}
