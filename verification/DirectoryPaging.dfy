/** Listing a directory in pages (src/worker/apfs_winfs_worker.cpp): each call sorts the whole listing,
    skips up to the marker and emits entries until the buffer is full. Names are UTF-16; `fold` is the
    case folding of the comparison. */
module DirectoryPaging {
  import opened Common

  type Name = seq<UInt16>

  // Order

  function Compare(a: seq<UInt16>, b: seq<UInt16>): int {
    if a == [] && b == [] then 0
    else if a == [] then -1
    else if b == [] then 1
    else if a[0] < b[0] then -1
    else if a[0] > b[0] then 1
    else Compare(a[1..], b[1..])
  }

  lemma {:induction false} CompareSwaps(a: seq<UInt16>, b: seq<UInt16>)
    ensures Compare(a, b) == -Compare(b, a)
    ensures Compare(a, b) == 0 <==> a == b
  {
    if a != [] && b != [] && a[0] == b[0] {
      CompareSwaps(a[1..], b[1..]);
      assert a == [a[0]] + a[1..] && b == [b[0]] + b[1..];
    }
  }

  lemma {:induction false} CompareChains(a: seq<UInt16>, b: seq<UInt16>, c: seq<UInt16>)
    requires Compare(a, b) <= 0 && Compare(b, c) <= 0
    ensures Compare(a, c) <= 0
    ensures Compare(a, b) < 0 || Compare(b, c) < 0 ==> Compare(a, c) < 0
  {
    if a != [] && b != [] && c != [] && a[0] == b[0] == c[0] {
      CompareChains(a[1..], b[1..], c[1..]);
    }
  }

  /** A sequence comes first if it is a proper beginning of the other or has the smaller element where they
      first differ. */
  lemma {:induction false} CompareMeans(a: seq<UInt16>, b: seq<UInt16>)
    ensures Compare(a, b) < 0 <==>
            a < b || exists k {:trigger a[k], b[k]} :: 0 <= k < |a| && k < |b| && a[k] < b[k] && a[..k] == b[..k]
  {
    if a == [] || b == [] {
    } else if a[0] != b[0] {
      assert a[0] < b[0] ==> a[..0] == b[..0];
      FirstDiffers(a, b);
    } else {
      CompareMeans(a[1..], b[1..]);
      assert a == [a[0]] + a[1..] && b == [b[0]] + b[1..];
      TailDiffers(a, b);
    }
  }

  lemma FirstDiffers(a: seq<UInt16>, b: seq<UInt16>)
    requires a != [] && b != [] && a[0] != b[0]
    ensures !(a < b)
    ensures forall k :: 0 < k < |a| && k < |b| ==> a[..k] != b[..k]
  {
    forall k | 0 < k < |a| && k < |b|
      ensures a[..k] != b[..k]
    {
      assert a[..k][0] != b[..k][0];
    }
  }

  lemma TailDiffers(a: seq<UInt16>, b: seq<UInt16>)
    requires a != [] && b != [] && a[0] == b[0]
    ensures a[1..] < b[1..] <==> a < b
    ensures (exists k {:trigger a[k], b[k]} :: 0 <= k < |a| && k < |b| && a[k] < b[k] && a[..k] == b[..k]) <==>
            exists k {:trigger a[1..][k], b[1..][k]} ::
              0 <= k < |a| - 1 && k < |b| - 1 && a[1..][k] < b[1..][k] && a[1..][..k] == b[1..][..k]
  {
    var x, y := a[1..], b[1..];
    assert a == [a[0]] + x && b == [b[0]] + y;
    forall k | 0 <= k < |x| && k < |y|
      ensures x[..k] == y[..k] <==> a[..k + 1] == b[..k + 1]
    {
      assert a[..k + 1] == [a[0]] + x[..k] && b[..k + 1] == [b[0]] + y[..k];
      assert a[..k + 1][1..] == x[..k] && b[..k + 1][1..] == y[..k];
    }
    if k {:trigger x[k], y[k]} :| 0 <= k < |x| && k < |y| && x[k] < y[k] && x[..k] == y[..k] {
      assert a[k + 1] < b[k + 1] && a[..k + 1] == b[..k + 1];
    }
    if k {:trigger a[k], b[k]} :| 0 <= k < |a| && k < |b| && a[k] < b[k] && a[..k] == b[..k] {
      assert x[k - 1] < y[k - 1] && x[..k - 1] == y[..k - 1];
    }
  }

  function Folded(fold: UInt16 -> UInt16, name: Name): (r: Name) {
    seq(|name|, i requires 0 <= i < |name| => fold(name[i]))
  }

  function CompareCi(fold: UInt16 -> UInt16, a: Name, b: Name): int {
    Compare(Folded(fold, a), Folded(fold, b))
  }

  /** The order of the sort: ignoring case, then exactly. */
  predicate Before(fold: UInt16 -> UInt16, a: Name, b: Name) {
    var ci := CompareCi(fold, a, b);
    ci < 0 || (ci == 0 && Compare(a, b) < 0)
  }

  lemma BeforeChains(fold: UInt16 -> UInt16, a: Name, b: Name, c: Name)
    requires !Before(fold, b, a) && !Before(fold, c, b)
    ensures !Before(fold, c, a) && CompareCi(fold, a, c) <= 0
  {
    hide Compare, Folded;
    var x, y, z := Folded(fold, a), Folded(fold, b), Folded(fold, c);
    CompareSwaps(x, y);
    CompareSwaps(y, z);
    CompareSwaps(x, z);
    CompareSwaps(a, b);
    CompareSwaps(b, c);
    CompareSwaps(a, c);
    CompareChains(x, y, z);
    if Compare(a, b) <= 0 && Compare(b, c) <= 0 {
      CompareChains(a, b, c);
    }
  }

  // Sorting

  ghost predicate Sorted(fold: UInt16 -> UInt16, s: seq<Name>) {
    forall i, j :: 0 <= i < j < |s| ==> !Before(fold, s[j], s[i])
  }

  function Insert(fold: UInt16 -> UInt16, s: seq<Name>, name: Name): (r: seq<Name>) {
    if s == [] || !Before(fold, s[0], name) then [name] + s else [s[0]] + Insert(fold, s[1..], name)
  }

  function Sort(fold: UInt16 -> UInt16, s: seq<Name>): (r: seq<Name>) {
    if s == [] then [] else Insert(fold, Sort(fold, s[1..]), s[0])
  }

  lemma {:induction false} InsertKeeps(fold: UInt16 -> UInt16, s: seq<Name>, name: Name)
    requires Sorted(fold, s)
    ensures Sorted(fold, Insert(fold, s, name))
    ensures multiset(Insert(fold, s, name)) == multiset(s) + multiset{name}
  {
    hide Before;
    var r := Insert(fold, s, name);
    if s == [] {
    } else if !Before(fold, s[0], name) {
      forall i | 0 <= i < |s|
        ensures !Before(fold, s[i], name)
      {
        if i > 0 {
          BeforeChains(fold, name, s[0], s[i]);
        }
      }
    } else {
      InsertKeeps(fold, s[1..], name);
      var rest := Insert(fold, s[1..], name);
      assert s == [s[0]] + s[1..];
      forall i | 0 <= i < |rest|
        ensures !Before(fold, rest[i], s[0])
      {
        assert rest[i] in multiset(rest);
        if rest[i] in s[1..] {
          var k :| 0 <= k < |s[1..]| && s[1..][k] == rest[i];
          assert s[k + 1] == rest[i];
        } else {
          assert rest[i] == name;
          NotBoth(fold, s[0], name);
        }
      }
    }
  }

  lemma NotBoth(fold: UInt16 -> UInt16, a: Name, b: Name)
    ensures !(Before(fold, a, b) && Before(fold, b, a))
  {
    hide Compare;
    CompareSwaps(a, b);
    CompareSwaps(Folded(fold, a), Folded(fold, b));
  }

  /** Sorting keeps the entries and puts them in order. */
  lemma {:induction false} SortSorts(fold: UInt16 -> UInt16, s: seq<Name>)
    ensures Sorted(fold, Sort(fold, s)) && multiset(Sort(fold, s)) == multiset(s)
  {
    hide Before;
    if s != [] {
      SortSorts(fold, s[1..]);
      InsertKeeps(fold, Sort(fold, s[1..]), s[0]);
      assert s == [s[0]] + s[1..];
    }
  }

  /** Three names, by the case folding of ASCII: `b`, `A`, `a` are listed as `A`, `a`, `b`. */
  lemma ListedOrder()
    ensures Sort(c => if 0x41 <= c <= 0x5a then c + 0x20 else c, [[0x62], [0x41], [0x61]]) == [[0x41], [0x61], [0x62]]
  {
    var fold: UInt16 -> UInt16 := c => if 0x41 <= c <= 0x5a then c + 0x20 else c;
    var b: Name, u: Name, a: Name := [0x62], [0x41], [0x61];
    assert Folded(fold, b) == [0x62] && Folded(fold, u) == [0x61] && Folded(fold, a) == [0x61];
    assert Compare([0x61], [0x62]) == -1 && Compare([0x62], [0x61]) == 1 && Compare([0x41], [0x61]) == -1;
    CompareSwaps([0x61], [0x61]);
    assert [b, u, a][1..] == [u, a] && [u, a][1..] == [a] && [a][1..] == [];
    assert Sort(fold, [a]) == [a];
    assert Sort(fold, [u, a]) == Insert(fold, [a], u) == [u] + [a];
    assert [u, a] == [u] + [a];
    assert Insert(fold, [], b) == [b];
    assert Insert(fold, [a], b) == [a] + [b];
    assert Insert(fold, [u, a], b) == [u] + ([a] + [b]);
    assert [u] + ([a] + [b]) == [u, a, b];
  }

  // One page

  /** Where a page starts: after every entry up to the marker. */
  function Start(fold: UInt16 -> UInt16, s: seq<Name>, marker: Name): (k: nat)
    ensures k <= |s|
    ensures marker == [] ==> k == 0
    ensures marker != [] && k < |s| ==> CompareCi(fold, s[k], marker) > 0
    ensures forall i :: 0 <= i < k ==> CompareCi(fold, s[i], marker) <= 0
  {
    if s == [] || marker == [] || CompareCi(fold, s[0], marker) > 0 then 0 else 1 + Start(fold, s[1..], marker)
  }

  /** How many entries of a list fit. */
  function Fitting(size: Name -> nat, s: seq<Name>, room: nat): (k: nat)
    ensures k <= |s| && (s != [] && size(s[0]) <= room ==> k > 0)
  {
    if s == [] || size(s[0]) > room then 0 else 1 + Fitting(size, s[1..], room - size(s[0]))
  }

  function Total(size: Name -> nat, s: seq<Name>): nat {
    if s == [] then 0 else size(s[0]) + Total(size, s[1..])
  }

  /** A page is filled as far as it goes: what fits has room together, and not one more. */
  lemma {:induction false} FittingMeans(size: Name -> nat, s: seq<Name>, room: nat)
    ensures var k := Fitting(size, s, room);
            Total(size, s[..k]) <= room && (k < |s| ==> Total(size, s[..k]) + size(s[k]) > room)
  {
    var k := Fitting(size, s, room);
    if k > 0 {
      FittingMeans(size, s[1..], room - size(s[0]));
      assert s[..k][1..] == s[1..][..k - 1];
    }
  }

  lemma PageIsFull(size: Name -> nat, s: seq<Name>, start: nat, room: nat)
    requires start <= |s|
    ensures var n := Fitting(size, s[start..], room);
            && Total(size, s[start..start + n]) <= room
            && (start + n < |s| ==> Total(size, s[start..start + n]) + size(s[start + n]) > room)
  {
    hide Total, Fitting;
    FittingMeans(size, s[start..], room);
    assert s[start..][..Fitting(size, s[start..], room)] == s[start..start + Fitting(size, s[start..], room)];
  }

  lemma SkippedAreBefore(fold: UInt16 -> UInt16, s: seq<Name>, marker: Name)
    requires Sorted(fold, s) && marker != []
    ensures forall i :: Start(fold, s, marker) <= i < |s| ==> CompareCi(fold, s[i], marker) > 0
  {
    hide Compare, Folded;
    var k := Start(fold, s, marker);
    forall i | k < i < |s|
      ensures CompareCi(fold, s[i], marker) > 0
    {
      var x, y, z := Folded(fold, marker), Folded(fold, s[k]), Folded(fold, s[i]);
      CompareSwaps(x, y);
      CompareSwaps(x, z);
      CompareSwaps(y, z);
      CompareChains(x, y, z);
    }
  }

  predicate Skipped(fold: UInt16 -> UInt16, name: Name, marker: Name) {
    marker != [] && CompareCi(fold, name, marker) <= 0
  }

  /** The loop over the sorted entries, of which the marker skips the first `k`. */
  method Emit(fold: UInt16 -> UInt16, size: Name -> nat, s: seq<Name>, marker: Name, length: nat, ghost k: nat)
    returns (page: seq<Name>, done: bool)
    requires k <= |s|
    requires forall i :: 0 <= i < |s| ==> (i < k <==> Skipped(fold, s[i], marker))
    ensures page == s[k..k + Fitting(size, s[k..], length)]
    ensures done <==> k + |page| == |s|
  {
    hide Skipped;
    page, done := [], false;
    var room: nat := length;
    var i := 0;
    while i < |s|
      invariant i <= |s|
      invariant i <= k ==> page == [] && room == length
      invariant i >= k ==> page == s[k..i] && Fitting(size, s[k..], length) == |page| + Fitting(size, s[i..], room)
    {
      var entry := s[i];
      assert i >= k ==> s[i..][0] == entry && s[i..][1..] == s[i + 1..];
      i := i + 1;
      if Skipped(fold, entry, marker) {
        continue;
      }
      if size(entry) > room {
        return;
      }
      room := room - size(entry);
      page := page + [entry];
    }
    done := true;
  }

  /** One call: `done` says that the end of the listing was reached. */
  method ListDirectory(fold: UInt16 -> UInt16, size: Name -> nat, entries: seq<Name>, marker: Name, length: nat)
    returns (page: seq<Name>, done: bool)
    ensures var s := Sort(fold, entries);
            var k := Start(fold, s, marker);
            && page == s[k..k + Fitting(size, s[k..], length)]
            && (done <==> k + |page| == |s|)
            && Total(size, page) <= length && (!done ==> Total(size, page) + size(s[k + |page|]) > length)
  {
    hide CompareCi, Before, Fitting, Sort, Total;
    PageIsFull(size, Sort(fold, entries), Start(fold, Sort(fold, entries), marker), length);
    SortSorts(fold, entries);
    var s := Sort(fold, entries);
    if marker != [] {
      SkippedAreBefore(fold, s, marker);
    }
    page, done := Emit(fold, size, s, marker, length, Start(fold, s, marker));
  }

  // Reading on from the last name

  /** No entry of the same name but for case follows a page's last entry. */
  ghost predicate Clean(fold: UInt16 -> UInt16, s: seq<Name>, end: nat) {
    0 < end < |s| ==> CompareCi(fold, s[end - 1], s[end]) != 0
  }

  /** The next page starts right after the last one if the boundary is clean, and further on if not. */
  lemma NextStart(fold: UInt16 -> UInt16, s: seq<Name>, end: nat)
    requires Sorted(fold, s) && 0 < end <= |s| && s[end - 1] != []
    ensures Start(fold, s, s[end - 1]) >= end
    ensures Start(fold, s, s[end - 1]) == end <==> Clean(fold, s, end)
  {
    hide Compare, Folded, Before;
    var marker := s[end - 1];
    SkippedAreBefore(fold, s, marker);
    var k := Start(fold, s, marker);
    CompareSwaps(Folded(fold, marker), Folded(fold, marker));
    if end < |s| {
      CompareSwaps(Folded(fold, s[end]), Folded(fold, marker));
      InOrderCi(fold, marker, s[end]);
    }
  }

  lemma InOrderCi(fold: UInt16 -> UInt16, a: Name, b: Name)
    requires !Before(fold, b, a)
    ensures CompareCi(fold, a, b) <= 0
  {
    hide Compare, Folded;
    CompareSwaps(Folded(fold, a), Folded(fold, b));
  }

  ghost predicate AllClean(fold: UInt16 -> UInt16, s: seq<Name>, ends: seq<nat>) {
    forall end :: end in ends ==> Clean(fold, s, end)
  }

  lemma SortedEntries(fold: UInt16 -> UInt16, entries: seq<Name>)
    ensures Sorted(fold, Sort(fold, entries)) && forall n :: n in Sort(fold, entries) ==> n in entries
  {
    hide Sorted, Sort;
    SortSorts(fold, entries);
    assert forall n :: n in Sort(fold, entries) ==> n in multiset(Sort(fold, entries));
  }

  /** One more page, in terms of the sorted listing. */
  method NextPage(fold: UInt16 -> UInt16, size: Name -> nat, entries: seq<Name>, marker: Name, length: nat, ghost end: nat)
    returns (page: seq<Name>, done: bool, ghost start: nat)
    requires forall n :: n in entries ==> n != [] && size(n) <= length
    requires end <= |Sort(fold, entries)|
    requires marker == if end == 0 then [] else Sort(fold, entries)[end - 1]
    ensures var s := Sort(fold, entries);
            && end <= start <= start + |page| <= |s| && page == s[start..start + |page|]
            && |page| == Fitting(size, s[start..], length)
            && (start == end <==> Clean(fold, s, end))
            && (done <==> start + |page| == |s|) && (page == [] ==> done)
  {
    hide CompareCi, Before, Sort, Start;
    SortedEntries(fold, entries);
    ghost var s := Sort(fold, entries);
    page, done := ListDirectory(fold, size, entries, marker, length);
    start := Start(fold, s, marker);
    if end > 0 {
      assert s[end - 1] in s;
      NextStart(fold, s, end);
    }
    if start < |s| {
      assert s[start] in s && s[start..][0] == s[start];
    }
  }

  /** Where pages end, from `end` on, when each starts where the one before it ended. */
  function Boundaries(size: Name -> nat, s: seq<Name>, lengths: nat -> nat, call: nat, end: nat): (ends: seq<nat>)
    requires end <= |s| && forall n, i :: n in s ==> size(n) <= lengths(i)
    ensures forall e :: e in ends ==> end <= e <= |s|
    decreases |s| - end
  {
    var e := end + Fitting(size, s[end..], lengths(call));
    if e == |s| then [e]
    else
      assert s[end..][0] == s[end] && s[end] in s;
      [e] + Boundaries(size, s, lengths, call + 1, e)
  }

  ghost predicate EveryPageHasRoom(size: Name -> nat, entries: seq<Name>, lengths: nat -> nat) {
    forall n, i :: n in entries ==> size(n) <= lengths(i)
  }

  /** The boundaries of the whole listing, which depend only on the entries and on the page sizes. */
  ghost function ListingEnds(fold: UInt16 -> UInt16, size: Name -> nat, entries: seq<Name>, lengths: nat -> nat): seq<nat>
    requires EveryPageHasRoom(size, entries, lengths)
  {
    SortedEntries(fold, entries);
    Boundaries(size, Sort(fold, entries), lengths, 0, 0)
  }

  lemma ListingEndsAre(fold: UInt16 -> UInt16, size: Name -> nat, entries: seq<Name>, lengths: nat -> nat)
    requires EveryPageHasRoom(size, entries, lengths)
    ensures var s := Sort(fold, entries);
            && (forall n, i :: n in s ==> size(n) <= lengths(i))
            && ListingEnds(fold, size, entries, lengths) == Boundaries(size, s, lengths, 0, 0)
  {
    SortedEntries(fold, entries);
  }

  lemma BoundariesStep(fold: UInt16 -> UInt16, size: Name -> nat, s: seq<Name>, lengths: nat -> nat, call: nat, end: nat)
    requires end <= |s| && forall n, i :: n in s ==> size(n) <= lengths(i)
    ensures var e := end + Fitting(size, s[end..], lengths(call));
            AllClean(fold, s, Boundaries(size, s, lengths, call, end)) <==>
            Clean(fold, s, e) && (e == |s| || AllClean(fold, s, Boundaries(size, s, lengths, call + 1, e)))
  {
    hide Clean, Fitting;
    var e := end + Fitting(size, s[end..], lengths(call));
    if e < |s| {
      var rest := Boundaries(size, s, lengths, call + 1, e);
      assert forall x :: x in [e] + rest <==> x == e || x in rest;
    }
  }

  /** A client that asks for page after page, each time from the last name it got, gets every entry
      exactly once and in order if and only if no page of the listing ends between two names that are
      equal but for case. */
  method Enumerate(fold: UInt16 -> UInt16, size: Name -> nat, entries: seq<Name>, lengths: nat -> nat)
    returns (result: seq<Name>)
    requires forall n :: n in entries ==> n != []
    requires EveryPageHasRoom(size, entries, lengths)
    ensures result == Sort(fold, entries) <==> AllClean(fold, Sort(fold, entries), ListingEnds(fold, size, entries, lengths))
    ensures |result| <= |Sort(fold, entries)|
  {
    hide Clean, Sort, AllClean, Boundaries, Fitting, ListingEnds, Before, CompareCi;
    SortedEntries(fold, entries);
    ghost var s := Sort(fold, entries);
    ListingEndsAre(fold, size, entries, lengths);
    ghost var whole := AllClean(fold, s, ListingEnds(fold, size, entries, lengths));
    result := [];
    var marker: Name := [];
    ghost var end := 0;
    var calls := 0;
    var done := false;
    EmptyIsClean(fold, s);
    while !done
      invariant end <= |s| && |result| <= end
      invariant done ==> end == |s|
      invariant !done ==> marker == if end == 0 then [] else s[end - 1]
      invariant |result| == end ==> result == s[..end]
      invariant whole <==>
                && |result| == end && Clean(fold, s, end)
                && (done || AllClean(fold, s, Boundaries(size, s, lengths, calls, end)))
      decreases !done, |s| - end
    {
      var page;
      ghost var start;
      page, done, start := NextPage(fold, size, entries, marker, lengths(calls), end);
      BoundariesStep(fold, size, s, lengths, calls, end);
      calls := calls + 1;
      end := start + |page|;
      result := result + page;
      if page != [] {
        marker := page[|page| - 1];
      }
    }
  }

  lemma EmptyIsClean(fold: UInt16 -> UInt16, s: seq<Name>)
    ensures Clean(fold, s, 0) && Clean(fold, s, |s|)
  {
  }

  // Which directories are listed whole

  ghost predicate DistinctCi(fold: UInt16 -> UInt16, s: seq<Name>) {
    forall i, j :: 0 <= i < j < |s| ==> CompareCi(fold, s[i], s[j]) != 0
  }

  lemma CompareCiSwaps(fold: UInt16 -> UInt16, a: Name, b: Name)
    ensures CompareCi(fold, a, b) == 0 <==> CompareCi(fold, b, a) == 0
  {
    CompareSwaps(Folded(fold, a), Folded(fold, b));
  }

  lemma {:induction false} InsertDistinct(fold: UInt16 -> UInt16, s: seq<Name>, name: Name)
    requires DistinctCi(fold, s) && forall n :: n in s ==> CompareCi(fold, n, name) != 0
    ensures DistinctCi(fold, Insert(fold, s, name))
    ensures forall n :: n in Insert(fold, s, name) ==> n in s || n == name
  {
    hide CompareCi, Before;
    if s == [] {
    } else if !Before(fold, s[0], name) {
      forall i | 0 <= i < |s|
        ensures CompareCi(fold, name, s[i]) != 0
      {
        CompareCiSwaps(fold, s[i], name);
      }
    } else {
      assert s == [s[0]] + s[1..];
      InsertDistinct(fold, s[1..], name);
      var rest := Insert(fold, s[1..], name);
      forall i | 0 <= i < |rest|
        ensures CompareCi(fold, s[0], rest[i]) != 0
      {
        assert rest[i] in rest;
        if rest[i] in s[1..] {
          var k :| 0 <= k < |s[1..]| && s[1..][k] == rest[i];
          assert s[k + 1] == rest[i];
        }
      }
    }
  }

  lemma {:induction false} SortDistinct(fold: UInt16 -> UInt16, s: seq<Name>)
    requires DistinctCi(fold, s)
    ensures DistinctCi(fold, Sort(fold, s))
    ensures forall n :: n in Sort(fold, s) ==> n in s
  {
    hide CompareCi, Insert;
    if s != [] {
      var rest := s[1..];
      SortDistinct(fold, rest);
      forall n | n in Sort(fold, rest)
        ensures CompareCi(fold, n, s[0]) != 0
      {
        var k :| 0 <= k < |rest| && rest[k] == n;
        assert s[k + 1] == n;
        CompareCiSwaps(fold, s[0], n);
      }
      InsertDistinct(fold, Sort(fold, rest), s[0]);
    }
  }

  /** A directory without names that are equal but for case is listed whole, whatever the pages. */
  lemma DistinctNamesAreListed(fold: UInt16 -> UInt16, size: Name -> nat, entries: seq<Name>, lengths: nat -> nat)
    requires DistinctCi(fold, entries) && EveryPageHasRoom(size, entries, lengths)
    ensures AllClean(fold, Sort(fold, entries), ListingEnds(fold, size, entries, lengths))
  {
    hide CompareCi, Sort;
    SortDistinct(fold, entries);
  }

  /** A directory with two such names is not, when a page has room for only one of them. */
  lemma TwinsAreSplit(fold: UInt16 -> UInt16, size: Name -> nat, a: Name, b: Name, lengths: nat -> nat)
    requires CompareCi(fold, a, b) == 0 && EveryPageHasRoom(size, [a, b], lengths)
    requires size(a) + size(b) > lengths(0)
    ensures !AllClean(fold, Sort(fold, [a, b]), ListingEnds(fold, size, [a, b], lengths))
  {
    hide Compare, Folded, CompareCi;
    CompareCiSwaps(fold, a, b);
    assert a in [a, b] && b in [a, b];
    SortedPair(fold, a, b);
    var s := Sort(fold, [a, b]);
    var ends := ListingEnds(fold, size, [a, b], lengths);
    FittingOne(size, s, lengths(0));
    assert s[0..] == s;
    assert ends[0] == 1;
    assert 1 in ends;
    assert !Clean(fold, s, 1);
  }

  lemma SortedPair(fold: UInt16 -> UInt16, a: Name, b: Name)
    ensures Sort(fold, [a, b]) == [a, b] || Sort(fold, [a, b]) == [b, a]
  {
    hide Before;
    assert [a, b][1..] == [b] && [b][1..] == [];
    assert Sort(fold, [b]) == [b];
    assert [b][1..] == [] && Insert(fold, [], a) == [a];
  }

  lemma FittingOne(size: Name -> nat, s: seq<Name>, room: nat)
    requires |s| == 2 && size(s[0]) <= room < size(s[0]) + size(s[1])
    ensures Fitting(size, s, room) == 1
  {
    assert s[1..][0] == s[1];
  }

  /** For instance `a` and `A`, in pages of one entry. */
  lemma TwoSpellings()
    ensures var fold: UInt16 -> UInt16 := c => if 0x41 <= c <= 0x5a then c + 0x20 else c;
            var entries: seq<Name> := [[0x61], [0x41]];
            && EveryPageHasRoom(n => 1, entries, i => 1)
            && !AllClean(fold, Sort(fold, entries), ListingEnds(fold, n => 1, entries, i => 1))
  {
    var fold: UInt16 -> UInt16 := c => if 0x41 <= c <= 0x5a then c + 0x20 else c;
    assert Folded(fold, [0x61]) == [0x61] && Folded(fold, [0x41]) == [0x61];
    CompareSwaps([0x61], [0x61]);
    TwinsAreSplit(fold, n => 1, [0x61], [0x41], i => 1);
  }
}
