/** Drive letters of the service's mounts (src/service/apfs_mount_service.cpp): which are used, which one
    is given out next, and which of them a merge of discovered volumes gives out. */
module DriveLetters {
  import opened Common
  import opened Text
  import opened RawTargets

  datatype MountConfig = MountConfig(target: string, mount: string, readOnly: bool, allowRawWrites: bool, enabled: bool)

  function UpperChar(c: char): char {
    if 'a' <= c <= 'z' then 'A' + (c - 'a') else c
  }

  /** The drive letter that a mount occupies, if it is one. */
  function LetterOf(mount: string): Option<char> {
    var t := Trim(mount);
    if |t| >= 2 && t[1] == ':' then Some(UpperChar(t[0])) else None
  }

  /** A drive in either case, alone or before a path that does not end in a space, occupies its capital
      letter; spaces around it do not matter. */
  lemma DriveOccupies(letter: char, path: string)
    requires 'a' <= letter <= 'z' && (path == [] || path[|path| - 1] > ' ')
    ensures LetterOf([letter, ':'] + path) == Some((letter as int - 32) as char)
    ensures LetterOf([(letter as int - 32) as char, ':'] + path) == Some((letter as int - 32) as char)
  {
    NothingToTrim([letter, ':'] + path);
    NothingToTrim([(letter as int - 32) as char, ':'] + path);
  }

  lemma NothingToTrim(s: string)
    requires s != [] && s[0] > ' ' && s[|s| - 1] > ' '
    ensures Trim(s) == s
  {
    assert TrimLeft(s) == s && TrimRight(s) == s;
  }

  lemma LettersSpelled()
    ensures LetterOf("e:") == Some('E') && LetterOf(" Q:\\data ") == Some('Q')
    ensures LetterOf("\\\\server\\share") == None && LetterOf("E") == None && LetterOf("") == None
  {
    NothingToTrim("e:");
    NothingToTrim("\\\\server\\share");
    NothingToTrim("E");
    assert " Q:\\data "[1..] == "Q:\\data " && "Q:\\data "[..7] == "Q:\\data";
    assert TrimLeft(" Q:\\data ") == TrimLeft("Q:\\data ") == "Q:\\data ";
    assert TrimRight("Q:\\data ") == TrimRight("Q:\\data") == "Q:\\data";
  }

  predicate Allocatable(letter: char) {
    'D' <= letter <= 'Z'
  }

  function LettersOf(mounts: seq<MountConfig>): set<char> {
    set m | m in mounts && LetterOf(m.mount).Some? :: LetterOf(m.mount).value
  }

  /** The letters that Windows or the mounts of a list occupy. */
  method UsedDriveLetters(drives: set<char>, mounts: seq<MountConfig>) returns (used: set<char>)
    ensures used == drives + LettersOf(mounts)
  {
    hide LetterOf;
    used := drives;
    var i := 0;
    while i < |mounts|
      invariant i <= |mounts| && used == drives + LettersOf(mounts[..i])
    {
      assert mounts[..i + 1] == mounts[..i] + [mounts[i]];
      var letter := LetterOf(mounts[i].mount);
      if letter.Some? {
        used := used + {letter.value};
      }
      i := i + 1;
    }
    assert mounts[..i] == mounts;
  }

  /** The last free letter from D to Z, or nothing when all 23 are used. */
  method NextAvailableMount(used: set<char>) returns (mount: string, after: set<char>)
    ensures mount == [] <==> forall c: char :: 'D' <= c <= 'Z' ==> c in used
    ensures mount == [] ==> after == used
    ensures mount != [] ==>
              && |mount| == 2 && mount[1] == ':' && 'D' <= mount[0] <= 'Z' && mount[0] !in used
              && after == used + {mount[0]} && forall c :: mount[0] < c <= 'Z' ==> c in used
  {
    var letter := 'Z';
    while letter >= 'D'
      invariant 'C' <= letter <= 'Z' && forall c :: letter < c <= 'Z' ==> c in used
      decreases letter
    {
      if letter !in used {
        return [letter, ':'], used + {letter};
      }
      letter := (letter as int - 1) as char;
    }
    return [], used;
  }

  /** A mount under a letter that was given out counts as using it the next time. */
  lemma LetterOfAllocated(letter: char)
    requires Allocatable(letter)
    ensures LetterOf([letter, ':']) == Some(letter)
  {
    var s := [letter, ':'];
    assert TrimLeft(s) == s && TrimRight(s) == s;
  }

  function PreferredMount(preferred: seq<MountConfig>, target: string): Option<MountConfig> {
    if preferred == [] then None
    else if Lower(preferred[0].target) == Lower(target) then Some(preferred[0])
    else PreferredMount(preferred[1..], target)
  }

  /** The first of the preferred mounts with the target, in any case, if there is one. */
  lemma {:induction false} PreferredIsFirst(preferred: seq<MountConfig>, target: string)
    ensures PreferredMount(preferred, target) == None <==> forall p :: p in preferred ==> Lower(p.target) != Lower(target)
    ensures forall i ::
              (&& 0 <= i < |preferred| && Lower(preferred[i].target) == Lower(target)
               && forall j :: 0 <= j < i ==> Lower(preferred[j].target) != Lower(target)) ==>
                PreferredMount(preferred, target) == Some(preferred[i])
  {
    hide Lower;
    if preferred != [] {
      PreferredIsFirst(preferred[1..], target);
      assert forall p :: p in preferred <==> p == preferred[0] || p in preferred[1..];
      forall i | 0 <= i < |preferred| && Lower(preferred[i].target) == Lower(target)
                 && (forall j :: 0 <= j < i ==> Lower(preferred[j].target) != Lower(target))
        ensures PreferredMount(preferred, target) == Some(preferred[i])
      {
        if i > 0 {
          assert preferred[1..][i - 1] == preferred[i];
          assert forall j :: 0 <= j < i - 1 ==> preferred[1..][j] == preferred[j + 1];
        }
      }
    }
  }

  method PreferredMountForTarget(preferred: seq<MountConfig>, target: string) returns (found: Option<MountConfig>)
    ensures found == PreferredMount(preferred, target)
  {
    var i := 0;
    while i < |preferred|
      invariant i <= |preferred| && PreferredMount(preferred, target) == PreferredMount(preferred[i..], target)
    {
      if Lower(preferred[i].target) == Lower(target) {
        return Some(preferred[i]);
      }
      i := i + 1;
    }
    return None;
  }

  /** The entry for a discovered volume: the settings of the same target in the preferred list, or
      else a writable mount under a letter. */
  ghost predicate NewEntry(preferred: seq<MountConfig>, mount: MountConfig) {
    match PreferredMount(preferred, mount.target)
    case Some(p) => p.mount != [] && mount == p.(target := mount.target)
    case None => |mount.mount| == 2 && mount == MountConfig(mount.target, [mount.mount[0], ':'], false, true, true)
  }

  /** The letters given out for mounts from index `from` on. */
  ghost predicate LettersGiven(preferred: seq<MountConfig>, mounts: seq<MountConfig>, from: nat,
                               before: set<char>, used: set<char>)
  {
    && before <= used
    && (forall c :: c in used - before ==>
          exists j :: from <= j < |mounts| && PreferredMount(preferred, mounts[j].target) == None && mounts[j].mount == [c, ':'])
    && (forall j :: from <= j < |mounts| && PreferredMount(preferred, mounts[j].target) == None ==>
          mounts[j].mount != [] && Allocatable(mounts[j].mount[0]) && mounts[j].mount[0] in used - before)
    && (forall i, j :: from <= i < j < |mounts| && PreferredMount(preferred, mounts[i].target) == None
                       && PreferredMount(preferred, mounts[j].target) == None ==>
          mounts[i].mount != mounts[j].mount)
  }

  lemma LetterGiven(preferred: seq<MountConfig>, mounts: seq<MountConfig>, from: nat, before: set<char>, used: set<char>,
                    mount: MountConfig)
    requires LettersGiven(preferred, mounts, from, before, used) && from <= |mounts|
    ensures PreferredMount(preferred, mount.target).Some? ==> LettersGiven(preferred, mounts + [mount], from, before, used)
    ensures PreferredMount(preferred, mount.target) == None && |mount.mount| == 2 && mount.mount[1] == ':'
            && Allocatable(mount.mount[0]) && mount.mount[0] !in used ==>
              LettersGiven(preferred, mounts + [mount], from, before, used + {mount.mount[0]})
  {
    hide PreferredMount;
    var grown := mounts + [mount];
    assert forall j :: 0 <= j < |mounts| ==> grown[j] == mounts[j];
    if PreferredMount(preferred, mount.target) == None && |mount.mount| == 2 && mount.mount[1] == ':' {
      assert grown[|mounts|].mount == [mount.mount[0], ':'];
    }
  }

  /** The settings of the entry for a volume, and the letters used afterwards. */
  method EntryFor(volume: Volume, preferred: seq<MountConfig>, used: set<char>) returns (mount: MountConfig, after: set<char>)
    ensures mount.target == volume.target
    ensures mount.mount != [] ==> NewEntry(preferred, mount)
    ensures (forall p :: p in preferred ==> Lower(p.target) != Lower(volume.target)) ==>
              !mount.readOnly && mount.allowRawWrites && mount.enabled
    ensures forall p :: PreferredMount(preferred, volume.target) == Some(p) ==>
              && mount.mount == p.mount && mount.readOnly == p.readOnly
              && mount.allowRawWrites == p.allowRawWrites && mount.enabled == p.enabled
    ensures match PreferredMount(preferred, volume.target) case Some(p) => mount.mount == p.mount case None => true
    ensures mount.mount == [] ==>
              match PreferredMount(preferred, volume.target)
              case Some(p) => p.mount == []
              case None => forall c :: Allocatable(c) ==> c in used
    ensures mount.mount == [] || PreferredMount(preferred, volume.target).Some? ==> after == used
    ensures mount.mount != [] && PreferredMount(preferred, volume.target) == None ==>
              && |mount.mount| == 2 && mount.mount[1] == ':' && Allocatable(mount.mount[0])
              && mount.mount[0] !in used && after == used + {mount.mount[0]}
              && forall c :: mount.mount[0] < c <= 'Z' ==> c in used
  {
    hide PreferredMount, Lower;
    PreferredIsFirst(preferred, volume.target);
    var found := PreferredMountForTarget(preferred, volume.target);
    if found.Some? {
      return found.value.(target := volume.target), used;
    }
    var letter;
    letter, after := NextAvailableMount(used);
    mount := MountConfig(volume.target, letter, false, true, true);
  }

  // Which letters a merge gives out

  function Free(before: set<char>): set<char> {
    set d: char | 'D' <= d <= 'Z' && d !in before
  }

  function FreeAbove(before: set<char>, letter: char): set<char> {
    set d: char | letter < d <= 'Z' && d !in before
  }

  /** Whether a letter is among the `n` last free ones. */
  predicate Given(before: set<char>, n: nat, letter: char) {
    Allocatable(letter) && letter !in before && |FreeAbove(before, letter)| < n
  }

  function RegionSet(layout: Layout, mounts: seq<MountConfig>): set<Region> {
    set m | m in mounts :: RegionOf(layout, m.target)
  }

  /** How many volumes ask for a letter: those in regions of their own that have no preferred mount. */
  function Wanting(layout: Layout, taken: set<Region>, volumes: seq<Volume>, preferred: seq<MountConfig>): nat
    decreases |volumes|
  {
    if volumes == [] then 0
    else
      var region, rest := RegionOf(layout, volumes[0].target), volumes[1..];
      if region in taken then Wanting(layout, taken, rest, preferred)
      else match PreferredMount(preferred, volumes[0].target)
        case Some(p) =>
          if p.mount == [] then Wanting(layout, taken, rest, preferred)
          else Wanting(layout, taken + {region}, rest, preferred)
        case None => 1 + Wanting(layout, taken + {region}, rest, preferred)
  }

  function LetterSeq(mount: string): seq<char> {
    match LetterOf(mount) case Some(c) => [c] case None => []
  }

  /** The letters of the preferred mounts that come into force, with `free` letters to give out. */
  function PlannedLetters(layout: Layout, taken: set<Region>, volumes: seq<Volume>, preferred: seq<MountConfig>, free: nat)
    : seq<char>
    decreases |volumes|
  {
    if volumes == [] then []
    else
      var region, rest := RegionOf(layout, volumes[0].target), volumes[1..];
      if region in taken then PlannedLetters(layout, taken, rest, preferred, free)
      else match PreferredMount(preferred, volumes[0].target)
        case Some(p) =>
          if p.mount == [] then PlannedLetters(layout, taken, rest, preferred, free)
          else LetterSeq(p.mount) + PlannedLetters(layout, taken + {region}, rest, preferred, free)
        case None =>
          if free == 0 then PlannedLetters(layout, taken, rest, preferred, free)
          else PlannedLetters(layout, taken + {region}, rest, preferred, free - 1)
  }

  function Letters(mounts: seq<MountConfig>): seq<char> {
    if mounts == [] then [] else Letters(mounts[..|mounts| - 1]) + LetterSeq(mounts[|mounts| - 1].mount)
  }

  function PreferredLetters(preferred: seq<MountConfig>, mounts: seq<MountConfig>): seq<char> {
    if mounts == [] then []
    else
      var last := mounts[|mounts| - 1];
      PreferredLetters(preferred, mounts[..|mounts| - 1])
      + if PreferredMount(preferred, last.target).Some? then LetterSeq(last.mount) else []
  }

  function AllocatedLetters(preferred: seq<MountConfig>, mounts: seq<MountConfig>): seq<char> {
    if mounts == [] then []
    else
      var last := mounts[|mounts| - 1];
      AllocatedLetters(preferred, mounts[..|mounts| - 1])
      + if PreferredMount(preferred, last.target) == None then LetterSeq(last.mount) else []
  }

  lemma {:induction false} LettersSplit(preferred: seq<MountConfig>, mounts: seq<MountConfig>)
    ensures multiset(Letters(mounts)) ==
            multiset(PreferredLetters(preferred, mounts)) + multiset(AllocatedLetters(preferred, mounts))
  {
    hide PreferredMount, LetterSeq;
    if mounts != [] {
      LettersSplit(preferred, mounts[..|mounts| - 1]);
    }
  }

  lemma LettersAppend(preferred: seq<MountConfig>, mounts: seq<MountConfig>, last: MountConfig)
    ensures var p := PreferredMount(preferred, last.target);
            && PreferredLetters(preferred, mounts + [last]) ==
               PreferredLetters(preferred, mounts) + (if p.Some? then LetterSeq(last.mount) else [])
            && AllocatedLetters(preferred, mounts + [last]) ==
               AllocatedLetters(preferred, mounts) + (if p == None then LetterSeq(last.mount) else [])
  {
    hide PreferredMount, LetterSeq;
    assert (mounts + [last])[..|mounts|] == mounts;
  }

  /** Whatever is given is given from the top. */
  ghost predicate HighestFirst(before: set<char>, used: set<char>) {
    && before <= used
    && forall c :: c in used - before ==> Allocatable(c) && forall d :: c < d <= 'Z' ==> d in used
  }

  /** What has been settled about letters when `rest` is still to be merged: with `entries` the new mounts
      so far, `wanting` volumes ask for letters in all and `plan` are the preferred letters in all. */
  ghost predicate LettersOnTrack(layout: Layout, preferred: seq<MountConfig>, taken: set<Region>, entries: seq<MountConfig>,
                                 rest: seq<Volume>, before: set<char>, used: set<char>, wanting: nat, plan: seq<char>)
  {
    && HighestFirst(before, used)
    && (|| wanting == |used - before| + Wanting(layout, taken, rest, preferred)
        || (Free(before) <= used && |used - before| <= wanting))
    && plan == PreferredLetters(preferred, entries)
               + PlannedLetters(layout, taken, rest, preferred, |Free(before) - used|)
    && multiset(AllocatedLetters(preferred, entries)) == multiset(used - before)
  }

  lemma TrackStart(layout: Layout, preferred: seq<MountConfig>, taken: set<Region>, volumes: seq<Volume>, before: set<char>)
    ensures LettersOnTrack(layout, preferred, taken, [], volumes, before, before,
                           Wanting(layout, taken, volumes, preferred),
                           PlannedLetters(layout, taken, volumes, preferred, |Free(before)|))
  {
    hide Wanting, PlannedLetters;
    assert Free(before) - before == Free(before) && before - before == {};
  }

  /** A volume that needs no mount, or whose preferred mount has no place. */
  lemma TrackSkipped(layout: Layout, preferred: seq<MountConfig>, taken: set<Region>, entries: seq<MountConfig>,
                     volume: Volume, rest: seq<Volume>, before: set<char>, used: set<char>, wanting: nat, plan: seq<char>)
    requires LettersOnTrack(layout, preferred, taken, entries, [volume] + rest, before, used, wanting, plan)
    requires RegionOf(layout, volume.target) in taken ||
             match PreferredMount(preferred, volume.target)
             case Some(p) => p.mount == []
             case None => forall c :: Allocatable(c) ==> c in used
    ensures LettersOnTrack(layout, preferred, taken, entries, rest, before, used, wanting, plan)
  {
    hide RegionOf, PreferredMount, PreferredLetters, AllocatedLetters, HighestFirst;
    assert ([volume] + rest)[1..] == rest;
    if RegionOf(layout, volume.target) !in taken && PreferredMount(preferred, volume.target) == None {
      assert Free(before) - used == {};
    }
  }

  /** A volume that gets its preferred mount. */
  lemma TrackPreferred(layout: Layout, preferred: seq<MountConfig>, taken: set<Region>, entries: seq<MountConfig>,
                       volume: Volume, rest: seq<Volume>, before: set<char>, used: set<char>, wanting: nat, plan: seq<char>,
                       mount: MountConfig)
    requires LettersOnTrack(layout, preferred, taken, entries, [volume] + rest, before, used, wanting, plan)
    requires RegionOf(layout, volume.target) !in taken && mount.target == volume.target && mount.mount != []
    requires PreferredMount(preferred, volume.target).Some? && PreferredMount(preferred, volume.target).value.mount == mount.mount
    ensures LettersOnTrack(layout, preferred, taken + {RegionOf(layout, volume.target)}, entries + [mount], rest,
                           before, used, wanting, plan)
  {
    hide RegionOf, PreferredMount, PreferredLetters, AllocatedLetters, HighestFirst, LetterSeq;
    assert ([volume] + rest)[1..] == rest;
    LettersAppend(preferred, entries, mount);
  }

  /** A volume that gets a letter. */
  lemma TrackGiven(layout: Layout, preferred: seq<MountConfig>, taken: set<Region>, entries: seq<MountConfig>,
                   volume: Volume, rest: seq<Volume>, before: set<char>, used: set<char>, wanting: nat, plan: seq<char>,
                   mount: MountConfig, letter: char)
    requires LettersOnTrack(layout, preferred, taken, entries, [volume] + rest, before, used, wanting, plan)
    requires RegionOf(layout, volume.target) !in taken && mount.target == volume.target && mount.mount == [letter, ':']
    requires PreferredMount(preferred, volume.target) == None
    requires Allocatable(letter) && letter !in used && forall c :: letter < c <= 'Z' ==> c in used
    ensures LettersOnTrack(layout, preferred, taken + {RegionOf(layout, volume.target)}, entries + [mount], rest,
                           before, used + {letter}, wanting, plan)
  {
    hide RegionOf, PreferredMount, PreferredLetters, AllocatedLetters, LetterOf, Free, HighestFirst;
    assert ([volume] + rest)[1..] == rest;
    LettersAppend(preferred, entries, mount);
    LetterOfAllocated(letter);
    OneGiven(before, used, letter);
  }

  lemma OneGiven(before: set<char>, used: set<char>, letter: char)
    requires HighestFirst(before, used)
    requires Allocatable(letter) && letter !in used && forall c :: letter < c <= 'Z' ==> c in used
    ensures HighestFirst(before, used + {letter}) && |used + {letter} - before| == |used - before| + 1
    ensures multiset(used + {letter} - before) == multiset(used - before) + multiset{letter}
    ensures |Free(before) - used| > 0 && |Free(before) - (used + {letter})| == |Free(before) - used| - 1
    ensures !(Free(before) <= used)
  {
    assert used + {letter} - before == (used - before) + {letter};
    assert letter in Free(before) - used;
    assert Free(before) - (used + {letter}) == Free(before) - used - {letter};
  }

  /** The given letters are exactly the last free ones. */
  ghost predicate ExactLetters(before: set<char>, used: set<char>, wanting: nat) {
    before <= used && forall c :: c in used - before <==> Given(before, wanting, c)
  }

  lemma HighestExact(before: set<char>, used: set<char>, wanting: nat)
    requires HighestFirst(before, used)
    requires wanting == |used - before| || (Free(before) <= used && |used - before| <= wanting)
    ensures ExactLetters(before, used, wanting)
  {
    var given := used - before;
    assert given <= Free(before);
    forall c
      ensures c in given <==> Given(before, wanting, c)
    {
      if c in given {
        Smaller(FreeAbove(before, c), given - {c});
        assert |given - {c}| == |given| - 1;
      } else if Allocatable(c) && c !in before {
        assert c in Free(before);
        assert forall g :: g in given ==> c < g;
        Smaller(given, FreeAbove(before, c));
      }
    }
  }

  lemma {:induction false} Smaller(a: set<char>, b: set<char>)
    requires a <= b
    ensures |a| <= |b|
  {
    assert b == a + (b - a) && a !! (b - a);
  }

  // When the letters of new mounts are unique

  ghost predicate Distinct(letters: seq<char>) {
    forall c :: c in letters ==> multiset(letters)[c] == 1
  }

  /** No two of the new mounts have one letter, and none has a letter that was used before. */
  ghost predicate Unshared(before: set<char>, entries: seq<MountConfig>) {
    Distinct(Letters(entries)) && forall c :: c in Letters(entries) ==> c !in before
  }

  /** The letters of the preferred mounts are distinct, unused, and not among those that will be given. */
  ghost predicate PlanIsClear(before: set<char>, wanting: nat, plan: seq<char>) {
    Distinct(plan) && forall c :: c in plan ==> c !in before && !Given(before, wanting, c)
  }

  /** What a merge has done about letters, in terms of what was there before it. */
  ghost predicate LettersExact(layout: Layout, volumes: seq<Volume>, preferred: seq<MountConfig>, mounts: seq<MountConfig>,
                               merged: seq<MountConfig>, before: set<char>, used: set<char>)
    requires |mounts| <= |merged|
  {
    var taken, entries := RegionSet(layout, mounts), merged[|mounts|..];
    && ExactLetters(before, used, Wanting(layout, taken, volumes, preferred))
    && PreferredLetters(preferred, entries) == PlannedLetters(layout, taken, volumes, preferred, |Free(before)|)
    && multiset(AllocatedLetters(preferred, entries)) == multiset(used - before)
  }

  /** After a merge the letters are unique if and only if the plan was clear before it. */
  lemma LettersUniqueIff(layout: Layout, volumes: seq<Volume>, preferred: seq<MountConfig>, mounts: seq<MountConfig>,
                         merged: seq<MountConfig>, before: set<char>, used: set<char>)
    requires |mounts| <= |merged| && LettersExact(layout, volumes, preferred, mounts, merged, before, used)
    ensures var taken := RegionSet(layout, mounts);
            Unshared(before, merged[|mounts|..]) <==>
            PlanIsClear(before, Wanting(layout, taken, volumes, preferred),
                        PlannedLetters(layout, taken, volumes, preferred, |Free(before)|))
  {
    hide Wanting, PlannedLetters, PreferredLetters, AllocatedLetters, Letters, RegionSet, Given;
    var entries := merged[|mounts|..];
    var wanting := Wanting(layout, RegionSet(layout, mounts), volumes, preferred);
    LettersSplit(preferred, entries);
    UniqueIff(before, used - before, Letters(entries), PreferredLetters(preferred, entries));
    assert forall c :: c in used - before <==> Given(before, wanting, c);
  }

  lemma UniqueIff(before: set<char>, given: set<char>, all: seq<char>, plan: seq<char>)
    requires multiset(all) == multiset(plan) + multiset(given) && given !! before
    ensures (Distinct(all) && forall c :: c in all ==> c !in before) <==>
            (Distinct(plan) && forall c :: c in plan ==> c !in before && c !in given)
  {
    Counted(given);
    assert forall c :: c in all <==> c in multiset(all);
    assert forall c :: c in plan <==> c in multiset(plan);
    assert forall c :: multiset(all)[c] == multiset(plan)[c] + multiset(given)[c];
  }

  lemma Counted(given: set<char>)
    ensures forall c :: multiset(given)[c] == if c in given then 1 else 0
  {
  }

  /** In particular they are unique without preferred mounts. */
  lemma {:induction false} NoPreferenceIsClear(layout: Layout, taken: set<Region>, volumes: seq<Volume>, before: set<char>,
                                               wanting: nat, free: nat)
    ensures PlannedLetters(layout, taken, volumes, [], free) == []
    ensures PlanIsClear(before, wanting, PlannedLetters(layout, taken, volumes, [], free))
    decreases |volumes|
  {
    hide RegionOf, Given;
    if volumes != [] {
      var region, rest := RegionOf(layout, volumes[0].target), volumes[1..];
      NoPreferenceIsClear(layout, taken, rest, before, wanting, free);
      if free > 0 {
        NoPreferenceIsClear(layout, taken + {region}, rest, before, wanting, free - 1);
      }
    }
  }
}
