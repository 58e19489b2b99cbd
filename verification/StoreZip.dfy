/** The deterministic ZIP writer of the release packager (class DeterministicStoreZip in
    scripts/build-release-package.ps1). */
module StoreZip {
  import opened Common
  import opened ZipFormat
  import Crc32
  import Utf8

  datatype ZipError = TooManyEntries | NameTooLong | InvalidSourcePath | Zip64Required

  datatype Result<+T> = Ok(value: T) | Err(error: ZipError)

  function CrcOf(content: seq<Byte>): (crc: nat)
    ensures crc <= UINT32_MAX
  {
    Crc32.ValueBound(Crc32.Crc(content));
    Crc32.Value(Crc32.Crc(content))
  }

  /** The CRC of one source file, read through the packager's table. */
  method FileCrc(table: array<Crc32.Register>, content: seq<Byte>) returns (crc: nat)
    requires Crc32.IsCrcTable(table[..])
    ensures crc == CrcOf(content)
  {
    hide Crc32.IsCrcTable, Crc32.Crc, Crc32.Value;
    var register := Crc32.ComputeCrc32(table, [content]);
    assert Crc32.Flatten([content]) == content + Crc32.Flatten([]);
    assert Crc32.Flatten([content]) == content;
    crc := Crc32.Value(register);
  }

  function MemberAt(tree: map<string, seq<Byte>>, path: string): Member {
    var content := if path in tree then tree[path] else [];
    Member(Utf8.Encode(path), CrcOf(content), content)
  }

  /** The members the given paths select; a path that names no file stands for an empty one. */
  function Select(tree: map<string, seq<Byte>>, paths: seq<string>): (members: seq<Member>)
    ensures |members| == |paths|
    ensures forall i {:trigger members[i]} :: 0 <= i < |paths| ==> members[i] == MemberAt(tree, paths[i])
  {
    seq(|paths|, i requires 0 <= i < |paths| => MemberAt(tree, paths[i]))
  }

  ghost predicate AllPresent(tree: map<string, seq<Byte>>, paths: seq<string>) {
    forall i :: 0 <= i < |paths| ==> paths[i] in tree
  }

  /** `tree` holds the files below the source root. The archive is written exactly when every path
      names a file and every field fits its width; nothing is written truncated. */
  method Create(tree: map<string, seq<Byte>>, paths: seq<string>) returns (archive: Result<seq<Byte>>)
    ensures archive.Ok? <==> (forall path :: path in paths ==> path in tree) && FitsZip(Select(tree, paths))
    ensures archive.Ok? ==> archive.value == Archive(Select(tree, paths))
    ensures archive == Err(TooManyEntries) <==> |paths| > 65535
    ensures archive == Err(InvalidSourcePath) ==> !AllPresent(tree, paths)
    ensures archive == Err(NameTooLong) || archive == Err(Zip64Required) ==> !FitsZip(Select(tree, paths))
  {
    hide Archive, Offsets, CentralOffsets, Sums, Join, MemberAt, Utf8.Encode, CrcOf, LocalBlock, EntryOf, Crc32.IsCrcTable;
    ghost var members := Select(tree, paths);
    var table := Crc32.CreateCrcTable();
    if |paths| > UINT16_MAX {
      return Err(TooManyEntries);
    }
    var output: seq<Byte> := [];
    var entries: seq<Entry> := [];
    var i := 0;
    StartOfOutput(members);
    while i < |paths|
      invariant 0 <= i <= |paths| && |entries| == i
      invariant Crc32.IsCrcTable(table[..])
      invariant forall k :: 0 <= k < i ==> paths[k] in tree
      invariant forall k :: 0 <= k < i ==> Storable(members[k])
      invariant forall k :: 0 <= k < i ==> entries[k] == EntryOf(members[k], Offsets(members)[k])
      invariant output == Join(LocalBlocks(members)[..i])
    {
      OutputPosition(members, i);
      var name := Utf8.Encode(paths[i]);
      if |name| > UINT16_MAX {
        Selected(tree, paths, i);
        return Err(NameTooLong);
      }
      if paths[i] !in tree {
        return Err(InvalidSourcePath);
      }
      var content := tree[paths[i]];
      var crc := FileCrc(table, content);
      Selected(tree, paths, i);
      if |content| > UINT32_MAX || |output| > UINT32_MAX {
        TooBig(members, i);
        return Err(Zip64Required);
      }
      var entry := Entry(name, crc, |content|, |output|);
      EntryRecorded(members[i], |output|);
      entries := entries + [entry];
      output := output + LocalBlock(entry, content);
      i := i + 1;
    }
    OutputPosition(members, i);
    if |output| > UINT32_MAX {
      return Err(Zip64Required);
    }
    var centralOffset := |output|;
    var directory := WriteCentralDirectory(entries, members);
    output := output + directory;
    var centralLength := |output| - centralOffset;
    if centralLength > UINT32_MAX || |output| > UINT32_MAX {
      return Err(Zip64Required);
    }
    output := output + Print(EndFields(|entries|, centralLength, centralOffset));
    ArchiveAssembled(members);
    return Ok(output);
  }

  /** The loop over the recorded entries, with the offsets noted while the members were written. */
  method WriteCentralDirectory(entries: seq<Entry>, ghost members: seq<Member>) returns (directory: seq<Byte>)
    requires |entries| == |members|
    requires forall k :: 0 <= k < |entries| ==> entries[k] == EntryOf(members[k], Offsets(members)[k])
    ensures directory == Join(CentralBlocks(members))
    ensures |directory| == CentralOffsets(members)[|members|]
  {
    hide Join, Sums, Offsets, CentralOffsets, CentralBlock;
    ghost var blocks := CentralBlocks(members);
    directory := [];
    JoinPrefix(blocks, 0);
    var e := 0;
    while e < |entries|
      invariant 0 <= e <= |entries|
      invariant directory == Join(blocks[..e])
    {
      JoinPrefix(blocks, e);
      assert blocks[e] == CentralBlock(entries[e]);
      directory := directory + CentralBlock(entries[e]);
      e := e + 1;
    }
    assert blocks[..e] == blocks;
    JoinPrefix(blocks, e);
    CentralBlockLengths(members);
  }

  // Steps of the writer

  lemma StartOfOutput(members: seq<Member>)
    ensures Join(LocalBlocks(members)[..0]) == []
  {
  }

  /** The stream position after `i` members is the next member's offset. */
  lemma OutputPosition(members: seq<Member>, i: nat)
    requires i <= |members|
    ensures |Join(LocalBlocks(members)[..i])| == Offsets(members)[i]
    ensures i < |members| ==>
              Join(LocalBlocks(members)[..i + 1]) == Join(LocalBlocks(members)[..i])
              + LocalBlock(EntryOf(members[i], Offsets(members)[i]), members[i].content)
  {
    hide Join, Sums, Offsets, LocalBlock;
    LocalBlockLengths(members);
    JoinPrefix(LocalBlocks(members), i);
  }

  lemma Selected(tree: map<string, seq<Byte>>, paths: seq<string>, i: nat)
    requires i < |paths|
    ensures Select(tree, paths)[i].name == Utf8.Encode(paths[i])
    ensures paths[i] in tree ==>
              Select(tree, paths)[i] == Member(Utf8.Encode(paths[i]), CrcOf(tree[paths[i]]), tree[paths[i]])
    ensures |Utf8.Encode(paths[i])| > UINT16_MAX ==> !FitsZip(Select(tree, paths))
  {
    hide CrcOf, Utf8.Encode, Offsets, CentralOffsets;
    var members := Select(tree, paths);
    assert members[i] == MemberAt(tree, paths[i]);
  }

  lemma TooBig(members: seq<Member>, i: nat)
    requires i < |members|
    requires !Storable(members[i]) || Offsets(members)[i] > UINT32_MAX
    ensures !FitsZip(members)
  {
    hide Offsets, CentralOffsets;
    OffsetsIncrease(members, i);
  }

  lemma EntryRecorded(m: Member, offset: nat)
    ensures EntryOf(m, offset) == Entry(m.name, m.crc, |m.content|, offset)
  {
  }

  lemma ArchiveAssembled(members: seq<Member>)
    ensures LocalBlocks(members)[..|members|] == LocalBlocks(members)
    ensures Archive(members) == Join(LocalBlocks(members)) + Join(CentralBlocks(members))
            + Print(EndFields(|members|, CentralOffsets(members)[|members|], Offsets(members)[|members|]))
  {
    hide Join, Offsets, CentralOffsets, Print;
  }

  /** What Create writes, both kinds of reader give back: the UTF-8 names of the given paths in
      order, the files' contents and their CRC-32s. */
  lemma CreatedArchiveReadsBack(tree: map<string, seq<Byte>>, paths: seq<string>, archive: seq<Byte>)
    requires AllPresent(tree, paths) && FitsZip(Select(tree, paths))
    requires archive == Archive(Select(tree, paths))
    ensures WalkLocals(archive, 0) == Select(tree, paths)
    ensures ReadArchive(archive) == Some(Select(tree, paths))
    ensures forall i {:trigger paths[i]} :: 0 <= i < |paths| ==>
              var m := WalkLocals(archive, 0)[i];
              && Utf8.Decode(m.name) == Some(paths[i])
              && m.content == tree[paths[i]]
              && m.crc == Crc32.Value(Crc32.Crc(tree[paths[i]]))
  {
    hide Archive, WalkLocals, ReadArchive, Utf8.Encode, Utf8.Decode, Crc32.Crc, Crc32.Value;
    ArchiveReadsBack(Select(tree, paths));
    forall i {:trigger paths[i]} | 0 <= i < |paths|
      ensures var m := WalkLocals(archive, 0)[i];
              && Utf8.Decode(m.name) == Some(paths[i])
              && m.content == tree[paths[i]]
              && m.crc == Crc32.Value(Crc32.Crc(tree[paths[i]]))
    {
      Selected(tree, paths, i);
      Utf8.DecodeIff(Utf8.Encode(paths[i]), paths[i]);
    }
  }
}
