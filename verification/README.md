# Verification of APFS for Windows

This Dafny project models the parts of APFS for Windows in which an error would lose or mix up data,
and proves what they are meant to guarantee: the mount worker's staged writes, crash-safe image
replacement, extended-attribute names, symbolic-link buffers and directory paging; the mount service's
alias removal, drive letters and worker supervision; and the deterministic ZIP writer of the release
script. `dafny verify dfyconfig.toml` checks everything.

## The models

**Staged writes** (`StagedWrites.dfy`). A file handle's content lives in the committed file, in a memory
buffer or in a host temporary file. `FileContext` and `HostFile` are classes with the worker's fields, and
`ApfsMountState` has its methods. `View(c)` is the byte sequence a reader of the handle sees. Every method is
proved against a plain byte sequence, and its status is written out case by case in terms of the viewed size,
of the limits as numbers, and of what the volume writer and the host answer. A commit has three parts to its
answer: whether the mutation is on the volume, what the caller is told, and whether there is a reader
afterwards; the volume is opened again after every commit, and a commit that is written can still be answered
with an error. `Session` runs any list of callbacks on one handle and returns a trace that a plain file could
have produced: `PlainStep` says what a call does to the bytes, `PlainAnswer` which calls must succeed and
which must not. Lemmas about such traces say the rest. It ends early only when a call has left a handle that
no longer agrees with its file; which calls can is part of its contract. Bytes that `QByteArray::resize`
leaves unspecified are unspecified here too, so `PlainWrite` and `PlainResize` are relations. They determine
the result for writes that leave no gap and for resizes that do not grow (`StepIsNext`).

**Image replacement** (`ImageNames.dfy`, `ImageReplacement.dfy`). `ImageStore` holds the directory of an
image, a map from names to complete or partial files with modification times. `ReplaceFileW` is two
moves, each of which can fail. The field `budget` says after how many directory operations the worker
dies; every contract holds for every budget, so it holds wherever the worker dies. An image counts from
the moment it has become the target, whether or not the target can then be opened again and the
mutation is reported. `Live` runs any number of workers and mutations; its history holds what counted, and
what had been reported, after each of them.

**Extended attributes** (`Base32.dfy`, `Utf8.dfy`, `ExtendedAttributes.dfy`, `AttributePolicy.dfy`).
Base32 follows section 6 of RFC 4648 with the canonical form of section 3.5, including the 32-bit buffer
that overflows. UTF-8 follows section 3 of RFC 3629.

**Reparse buffers** (`ReparsePoints.dfy`) follow section 2.1.2.4 of [MS-FSCC]. **Paging**
(`DirectoryPaging.dfy`) sorts, skips and emits as the worker does, and `Enumerate` is the client that
asks for page after page.

**Mount service** (`RawTargets.dfy`, `DriveLetters.dfy`, `MountAliases.dfy`, `WorkerSupervision.dfy`).
`RegionOf` is what a target stands for, whichever scan is at hand; `SameRegionOfPaths` says which paths share
one. `MountTable` holds the mount list, `Service` the workers, together with two ghost fields: `live`, the
processes that are alive and the regions they serve, to which a start adds and from which an exit or a stop
takes away; and `moments`, every worker list and every such collection there has ever been, the ones in the
middle of a sync included.

**ZIP writer** (`Crc32.dfy`, `ZipFormat.dfy`, `StoreZip.dfy`). The format has its own printers and
readers (sections 4.3.7, 4.3.12 and 4.3.16 of PKWARE's APPNOTE.TXT); the writer is proved to produce
what the printers say. The readers share nothing with the printers: they check every field against the
numbers of those sections, and that the records fill the archive without gaps. The reference CRC feeds one
bit at a time (section 8 of RFC 1952); its polynomial is given by exponents and its check value is proved.

## What holds only under a condition

- Overwriting keeps a handle consistent if and only if it had a size to lose or nothing is committed
  (`OverwriteFile`); `OverwriteTwice` shows a handle for which it does not.
- A write or a resize without a stage keeps a handle consistent if and only if its commit is answered with
  success, or leaves a reader and the size that the handle has cached (`WriteFile`, `SetFileSize`);
  `WrittenButFailed` shows one that is reported as failed and has taken effect.
- A mutation of an image is reported as successful if and only if its image has become the target and the
  target can be opened again (`Commit`); `ReportedAsFailed` shows one that counts and is not reported.
- Recovery keeps the newest image if and only if there is a target, or no backup can be restored, or the
  newest one can (`Recover`). `GoesBack` reaches a state from which renaming the newest backup fails and
  renaming an older one works: the older image becomes the target and the reported one is removed.
- The test for `-backup-` looks at the whole name: it tells backups apart if and only if the image's own
  name does not carry that mark (`BackupTest`, `MarkedImage`). The image store assumes such a name.
- Absolute links survive the print name if and only if the mount is not empty and does not look like an
  object-manager prefix once a backslash follows it (`RoundTrip`); the substitute name needs only the
  first half (`SubstituteRoundTrip`). A parsed absolute name lies below the mount if and only if it is the
  mount or a separator follows the mount in it (`AbsoluteTarget`); `NeighbourIsAccepted` shows one that
  lies beside it.
- Paging lists every entry if and only if no page ends between two names that are equal but for case
  (`Enumerate`); where pages end is computed from the entries and the page sizes. Without such names it
  always does (`DistinctNamesAreListed`); two such names that do not fit one page are never both listed
  (`TwinsAreSplit`, `TwoSpellings`).
- A reported attribute reads back as a set operation unless it has a direct name and an empty value, which
  asks for removal (`ReportedRecordReadsBack`). Writing everything back is accepted if and only if no
  attribute with a direct name has an other-case twin among all attributes (`WriteBackAccepted`).
- Letters given out are distinct, unused, and exactly the last free ones, as many as there are volumes that
  ask for one (`LettersExact`). A preferred mount's letter is not marked as used: after a merge all new
  letters are distinct and unused if and only if the preferred letters that come into force are distinct,
  unused, and not among those last free ones (`LettersUniqueIff`). `PreferredLetterClash` is a merge
  that mounts two volumes under `Z:`.

## Model

| member | source | states |
|---|---|---|
| StagedWrites.ApfsMountState.OpenContext | src/worker/apfs_winfs_worker.cpp:875-888 | a fresh handle reads the committed file and satisfies the handle invariant |
| StagedWrites.ApfsMountState.CreateNode | src/worker/apfs_winfs_worker.cpp:914-955 | an empty file is committed and opened as created by this handle, or which error; a commit that is written but answered with an error leaves the file and no handle |
| StagedWrites.ApfsMountState.ReadFile | src/worker/apfs_winfs_worker.cpp:723-764 | a read succeeds if and only if its offset lies in the viewed bytes and, without a stage, below the read limit, with a length and a reader that answers, or, in a host file, with a host that opens it; it returns exactly the window of the viewed bytes; exactly when end of file is answered |
| StagedWrites.ApfsMountState.ReadBytes | src/worker/apfs_winfs_worker.cpp:1399-1410 | the window of a buffer, or end of file |
| StagedWrites.ApfsMountState.ReadMutableBytes | src/worker/apfs_winfs_worker.cpp:2903-2920 | the whole committed file, within 64 MiB |
| StagedWrites.ApfsMountState.EnsureStagedWriteData | src/worker/apfs_winfs_worker.cpp:1521-1540 | opening a stage does not change what the handle reads |
| StagedWrites.ApfsMountState.EnsureFileBackedStage | src/worker/apfs_winfs_worker.cpp:1450-1486 | moving the stage to a host file does not change what the handle reads |
| StagedWrites.ApfsMountState.WriteStagedFile | src/worker/apfs_winfs_worker.cpp:1488-1519 | the host file gets the plain write, with zeros in a gap, or stays as it was |
| StagedWrites.ApfsMountState.WriteFile | src/worker/apfs_winfs_worker.cpp:980-1070 | success, or a commit that is written, is the plain write at the offset or the end, in memory, in the host file or committed; any other call changes nothing a reader sees; the status for every case, with the limits in numbers; exactly when the handle survives |
| StagedWrites.ApfsMountState.WrittenButFailed | src/worker/apfs_winfs_worker.cpp:1868-1880 | a write that is reported as failed, has taken effect, and leaves a handle that does not know it |
| StagedWrites.ApfsMountState.SetFileSize | src/worker/apfs_winfs_worker.cpp:1072-1138 | success, or a commit that is written, keeps the common prefix and sets the size; an allocation size never grows a file; any other call changes nothing a reader sees; the status for every case; exactly when the handle survives |
| StagedWrites.ApfsMountState.OverwriteFile | src/worker/apfs_winfs_worker.cpp:957-978 | the handle reads as empty and its temporary file is gone; the invariant survives if and only if the old size was not zero or nothing is committed |
| StagedWrites.ApfsMountState.OverwriteTwice | src/worker/apfs_winfs_worker.cpp:969-975 | a run after which a handle reads empty, has nothing to flush, and the committed file is not empty |
| StagedWrites.ApfsMountState.CommitFileWrite | src/worker/apfs_winfs_worker.cpp:1816-1880 | what is written, what is answered and whether there is a reader follow the commit; the cached size follows only success; the 64 MiB limit |
| StagedWrites.ApfsMountState.CommitFileWriteFromPath | src/worker/apfs_winfs_worker.cpp:1882-1936 | the host file's bytes become the committed file, if their number is the announced one; the answer and the reader follow the commit |
| StagedWrites.ApfsMountState.FlushFile | src/worker/apfs_winfs_worker.cpp:1305-1351 | a flush changes no read; success commits exactly what is read and empties the stage; failure keeps the stage, even if the commit was written; the worker's own limit never makes it fail |
| StagedWrites.ApfsMountState.DiscardStagedWrite | src/worker/apfs_winfs_worker.cpp:1542-1554 | the handle reads the committed file again and its temporary file is gone |
| StagedWrites.ApfsMountState.DeleteFile | src/worker/apfs_winfs_worker.cpp:1169-1197 | the stage goes before the volume is asked; a delete that is not written leaves the committed file |
| StagedWrites.ApfsMountState.Cleanup | src/worker/apfs_winfs_worker.cpp:3076-3092 | the last callback: nothing staged is committed by a delete; otherwise exactly what was read is |
| StagedWrites.ApfsMountState.Session | src/worker/apfs_winfs_worker.cpp:723-1351 | any run of callbacks on one handle, overwriting included, answers like a plain file: on a writable mount every call within 64 MiB succeeds in a world that answers well, and a read returns the bytes; no other file changes; the run ends early only when a call has lost the handle, in the ways named |
| StagedWrites.StepIsNext | src/worker/apfs_winfs_worker.cpp:1014-1138 | writes without a gap and resizes that do not grow determine every byte |
| StagedWrites.RunsAgree | src/worker/apfs_winfs_worker.cpp:723-1138 | two runs with the same calls and effects read the same at every step, wherever each keeps its content |
| StagedWrites.ReadsAgree | src/worker/apfs_winfs_worker.cpp:723-764 | a read within the limit gets the same bytes in both runs, and those are the viewed ones |
| StagedWrites.WriteReadsBack | src/worker/apfs_winfs_worker.cpp:723-1070 | a read of the range that was just written returns what was written |
| StagedWrites.KeptReadsBack | src/worker/apfs_winfs_worker.cpp:723-1138 | beside a write, and below a new size, a read returns what was there before |
| StagedWrites.FailureIsWhole | src/worker/apfs_winfs_worker.cpp:1868-1880 | a failed call leaves the volume as it was, or with all of what is now viewed if its commit was written |
| StagedWrites.SavedWasViewed | src/worker/apfs_winfs_worker.cpp:1305-1351 | the volume only ever holds whole contents that the handle's reader has seen |
| StagedWrites.FlushedStays | src/worker/apfs_winfs_worker.cpp:1305-1351 | what a successful flush committed stays until a later call takes effect in changing it |
| ImageNames.TempNameParses | src/worker/apfs_winfs_worker.cpp:1656-1664 | a temporary's name is recognised, with its own operation, process number and unique part |
| ImageNames.PatternMeans | src/worker/apfs_winfs_worker.cpp:1669-1672 | which names the pattern takes, character by character, and what it captures |
| ImageNames.TempNameSpelled | src/worker/apfs_winfs_worker.cpp:1659-1662 | a name as it is on the disk |
| ImageReplacement.MakerAlive | src/worker/apfs_winfs_worker.cpp:415-427 | recovery takes a temporary for a living worker's if and only if the number in its name is a process number of at most 32 bits and that process is alive |
| ImageNames.OwnersAreDistinct | src/worker/apfs_winfs_worker.cpp:1668-1672 | a temporary of one image never matches the pattern of another |
| ImageNames.BackupTest | src/worker/apfs_winfs_worker.cpp:1681-1684 | the backup test is right if and only if the image's name does not carry the mark |
| ImageNames.MarkedImage | src/worker/apfs_winfs_worker.cpp:1681-1684 | under a name with the mark an interrupted write passes for a backup |
| ImageReplacement.ImageStore.Listing | src/worker/apfs_winfs_worker.cpp:1673-1674 | exactly the candidates, newest first |
| ImageReplacement.ImageStore.RestoreBackup | src/worker/apfs_winfs_worker.cpp:1676-1691 | the newest eligible file, and only it, becomes the target |
| ImageReplacement.ImageStore.RemoveDeadTemps | src/worker/apfs_winfs_worker.cpp:1696-1704 | what can be removed of dead workers' temporaries is, and nothing else |
| ImageReplacement.ImageStore.Recover | src/worker/apfs_winfs_worker.cpp:1666-1705 | the image that counts is the target afterwards, exactly when the newest backup can be restored; the temporary of a living worker, by its name and process number, stays with its content; a complete recovery leaves no removable temporary of a dead one, and restores no older backup than any it could; wherever recovery is interrupted, nothing is lost |
| ImageReplacement.ImageStore.ReplaceFile | src/worker/apfs_winfs_worker.cpp:1763-1764 | after each half of the replacement the old or the new image survives |
| ImageReplacement.ImageStore.ReplaceTargetWithTemp | src/worker/apfs_winfs_worker.cpp:1757-1776 | success means the new image is the target, failure that the old one counts; the directory afterwards |
| ImageReplacement.ImageStore.Commit | src/worker/apfs_winfs_worker.cpp:1841-1880 | a mutation counts exactly when its image has become the target, and is reported as successful exactly when it counts and the target can be opened again; the directory afterwards |
| ImageReplacement.ImageStore.Live | src/worker/apfs_winfs_worker.cpp:1656-1880 | over any number of workers, mutations and deaths, what counts never goes back, is at every moment the target or a complete backup, and is the last reported image, or one that became the target unreported because its worker died or could not open it; every uninterrupted mutation counts and is reported exactly when it should; after every uninterrupted restart what counts is the target and no removable dead temporary is left |
| ImageReplacement.ReportedAsFailed | src/worker/apfs_winfs_worker.cpp:1868-1876 | a mutation that the caller is told has failed, although its image counts |
| ImageReplacement.LeavesTwoBackups | src/worker/apfs_winfs_worker.cpp:1757-1776 | two mutations, the first reported, that leave no target and two backups |
| ImageReplacement.GoesBack | src/worker/apfs_winfs_worker.cpp:1676-1704 | a recovery that makes the older image the target and removes the reported one |
| ImageReplacement.RestoredSurvives | src/worker/apfs_winfs_worker.cpp:1676-1691 | restoring goes back to an older image if and only if the newest backup is not what is restored |
| ImageReplacement.SurvivesAsBackup | src/worker/apfs_winfs_worker.cpp:1763-1764 | between the two moves the old image survives as the newest backup |
| ImageReplacement.SurvivesAsNew | src/worker/apfs_winfs_worker.cpp:1763-1764 | after the second move the new image survives as the target and no backup is newer |
| ImageReplacement.SettledRecovers | src/worker/apfs_winfs_worker.cpp:1676-1691 | with no target, all makers dead and renaming possible, the newest backup is eligible |
| Base32.EncodeBase32 | src/worker/apfs_winfs_worker.cpp:106-124 | the loop computes the encoding of the byte string's bits in groups of five |
| Base32.DecodeBase32 | src/worker/apfs_winfs_worker.cpp:126-154 | decoding gives d if and only if the input is not empty and its upper-case form is the encoding of d |
| Base32.EncodeInjective | src/worker/apfs_winfs_worker.cpp:106-124 | different byte strings have different encodings, and encodings are upper case |
| Base32.EncodedLength | src/worker/apfs_winfs_worker.cpp:109-109 | how many symbols an encoding has |
| Base32.PublishedVector | src/worker/apfs_winfs_worker.cpp:106-124 | `foo` is encoded as RFC 4648 prints it |
| Base32.SymbolSpelled | src/worker/apfs_winfs_worker.cpp:107-107 | the alphabet of RFC 4648 |
| Base32.UpperOfLetters | src/worker/apfs_winfs_worker.cpp:126-154 | which letters decoding takes in either case |
| Utf8.DecodeIff | src/worker/apfs_winfs_worker.cpp:166-169 | decoding gives a text if and only if the bytes are its encoding |
| AttributePolicy.CollisionKeys | src/worker/apfs_winfs_worker.cpp:182-195 | exactly the keys that two different names share |
| AttributePolicy.ValidateMutations | src/worker/apfs_winfs_worker.cpp:203-222 | a batch is accepted if and only if no turn meets another spelling of its name, unless the exact spelling is there too and was addressed by its alias, on the names the earlier turns leave |
| AttributePolicy.NamesAtTurn | src/worker/apfs_winfs_worker.cpp:215-219 | after a turn a removed name is gone, a set one is there, and all others are as before |
| AttributePolicy.AcceptedBatchAddsNoCollision | src/worker/apfs_winfs_worker.cpp:203-222 | at any point of an accepted batch, two names that are equal but for case were both there before it |
| AttributePolicy.AcceptedIffNoTurnCollides | src/worker/apfs_winfs_worker.cpp:203-222 | starting without collisions, a batch is accepted if and only if no turn would meet an other-case twin |
| AttributePolicy.SettingExisting | src/worker/apfs_winfs_worker.cpp:206-219 | setting names that exist changes no name, and is judged turn by turn on the same names |
| ExtendedAttributes.DecodeAlias | src/worker/apfs_winfs_worker.cpp:156-174 | a wire name decodes to a name if and only if it is that name's alias, ignoring case |
| ExtendedAttributes.AliasInjective | src/worker/apfs_winfs_worker.cpp:176-178 | different names have different aliases |
| ExtendedAttributes.DirectIff | src/worker/apfs_winfs_worker.cpp:83-104 | a name is direct if and only if it is 1 to 127 printable ASCII characters, none reserved, and does not start with the alias prefix in any case |
| ExtendedAttributes.AliasSpelled | src/worker/apfs_winfs_worker.cpp:176-178 | the alias of `foo`, letter by letter |
| ExtendedAttributes.EaMutationCollector.Collect | src/worker/apfs_winfs_worker.cpp:557-602 | a record is accepted if and only if it asks for something, and what it asks for is recorded once for each list |
| ExtendedAttributes.AsksDirectly | src/worker/apfs_winfs_worker.cpp:557-602 | a record under a direct name is acceptable if and only if it has no flags and the name is not critical, and what it then asks for |
| ExtendedAttributes.AsksByAlias | src/worker/apfs_winfs_worker.cpp:557-602 | a record under an alias is acceptable if and only if it has no flags, its name is not critical and its value is empty or of version 1, and what it then asks for |
| ExtendedAttributes.ReportedAre | src/worker/apfs_winfs_worker.cpp:2545-2553 | reported are, in order, the attributes whose name has 1 to 127 bytes, no zero, and is not critical |
| ExtendedAttributes.WireSpelled | src/worker/apfs_winfs_worker.cpp:2561-2569 | the record of an attribute, byte by byte |
| ExtendedAttributes.PrepareRecords | src/worker/apfs_winfs_worker.cpp:2545-2574 | the records for the reportable attributes, aliased where a name is not direct or collides |
| ExtendedAttributes.WireNameFits | src/worker/apfs_winfs_worker.cpp:2570-2573 | no reportable name is too long for a record, and which values are |
| ExtendedAttributes.ReportedRecordReadsBack | src/worker/apfs_winfs_worker.cpp:557-602 | a reported record asks for its own attribute and value, as a set operation unless the wire value is empty |
| ExtendedAttributes.AsksOnce | src/worker/apfs_winfs_worker.cpp:557-602 | a record asks for one mutation only |
| ExtendedAttributes.WireNamesDistinct | src/worker/apfs_winfs_worker.cpp:2561-2569 | reported names differ even ignoring case |
| ExtendedAttributes.RecordsAreDistinct | src/worker/apfs_winfs_worker.cpp:2556-2574 | the prepared records have pairwise different names, even ignoring case |
| ExtendedAttributes.ReportAndCollect | src/worker/apfs_winfs_worker.cpp:2545-2574 | feeding all prepared records back is accepted and asks for exactly the reported attributes whose value has at most 65535 bytes, or 65534 under an alias, each with its own value |
| ExtendedAttributes.WriteBackAccepted | src/worker/apfs_winfs_worker.cpp:2602-2656 | writing everything back is accepted if and only if no direct name has an other-case twin among all names |
| ReparsePoints.BuildSymbolicLinkReparseData | src/worker/apfs_winfs_worker.cpp:2684-2740 | every word of the buffer, and which error, in terms of the target and the trimmed mount |
| ReparsePoints.ParseSymbolicLinkReparseData | src/worker/apfs_winfs_worker.cpp:2786-2843 | which buffers are refused and which name of the others is read, in words of the buffer; an accepted target is not empty and has no backslash and no NUL |
| ReparsePoints.BelowMountIff | src/worker/apfs_winfs_worker.cpp:2823-2836 | an absolute name is accepted if and only if it starts with the trimmed mount in any case, and what it becomes |
| ReparsePoints.TargetIff | src/worker/apfs_winfs_worker.cpp:2837-2842 | a target is accepted if and only if it is not empty and has no zero |
| ReparsePoints.ParsedBuffer | src/worker/apfs_winfs_worker.cpp:2798-2822 | a reader of a built buffer finds the print name, or the substitute name if the print name is empty |
| ReparsePoints.RoundTrip | src/worker/apfs_winfs_worker.cpp:2684-2843 | building and parsing gives the target back if and only if it has no backslash and no NUL and an absolute one has a usable mount |
| ReparsePoints.SubstituteRoundTrip | src/worker/apfs_winfs_worker.cpp:2801-2826 | the substitute name gives the same target, for every mount that is not empty |
| ReparsePoints.AbsoluteTarget | src/worker/apfs_winfs_worker.cpp:2823-2836 | the target an absolute name is given, and that it leads back to the name if and only if the name lies below the mount |
| ReparsePoints.NeighbourIsAccepted | src/worker/apfs_winfs_worker.cpp:2827-2836 | a name beside the mount that is accepted, and the target it becomes |
| DirectoryPaging.SortSorts | src/worker/apfs_winfs_worker.cpp:779-788 | the order ignoring case, then exactly, sorts any listing and keeps its entries |
| DirectoryPaging.CompareMeans | src/worker/apfs_winfs_worker.cpp:779-788 | one name is before another if it is a proper beginning of it or smaller where they first differ |
| DirectoryPaging.ListedOrder | src/worker/apfs_winfs_worker.cpp:779-788 | `b`, `A`, `a` are listed as `A`, `a`, `b` |
| DirectoryPaging.ListDirectory | src/worker/apfs_winfs_worker.cpp:766-805 | a page is the run right after every entry up to the marker; it has room, and with one more entry it would not |
| DirectoryPaging.NextStart | src/worker/apfs_winfs_worker.cpp:792-796 | the next page starts where the last one ended if and only if the boundary does not split names equal but for case |
| DirectoryPaging.Enumerate | src/worker/apfs_winfs_worker.cpp:766-805 | page after page gives every entry once and in order if and only if no page of the listing ends between names equal but for case, where the pages of the listing are computed from the entries and the page sizes |
| DirectoryPaging.DistinctNamesAreListed | src/worker/apfs_winfs_worker.cpp:779-796 | without names equal but for case, no page ends between two such names |
| DirectoryPaging.TwinsAreSplit | src/worker/apfs_winfs_worker.cpp:792-796 | two names equal but for case that do not fit one page are split |
| DirectoryPaging.TwoSpellings | src/worker/apfs_winfs_worker.cpp:792-796 | `a` and `A`, in pages of one entry, are split |
| RawTargets.DriveParses | src/service/apfs_mount_service.cpp:989-997 | the path of a disk parses to that disk |
| RawTargets.PartitionParses | src/service/apfs_mount_service.cpp:999-1018 | the path of a partition parses to that partition of that disk |
| RawTargets.LargeDisk | src/service/apfs_mount_service.cpp:989-997 | the path of a disk whose number has more than 31 bits does not parse |
| RawTargets.NoPartitionZero | src/service/apfs_mount_service.cpp:999-1018 | the path of a partition 0 does not parse |
| RawTargets.SameRegionIff | src/service/apfs_mount_service.cpp:1060-1097 | the test for the same region is equality of regions, whichever scan it uses |
| RawTargets.SameRegionOfPaths | src/service/apfs_mount_service.cpp:1060-1097 | two partitions are one region if and only if they start at one place of one disk; a partition and a disk, if and only if it starts where the disk does |
| RawTargets.SameRegionOfVolumes | src/service/apfs_mount_service.cpp:1060-1097 | two scanned volumes are one region if and only if they start at one place of one disk |
| RawTargets.UnknownTargets | src/service/apfs_mount_service.cpp:1060-1097 | any other target shares its region only with its own spellings |
| RawTargets.SpellingsAgree | src/service/apfs_mount_service.cpp:989-1018 | targets that differ only in case parse alike and name one region |
| RawTargets.PathsSpelled | src/service/apfs_mount_service.cpp:988-999 | the two kinds of paths as they are printed |
| RawTargets.ToIntRange | src/service/apfs_mount_service.cpp:991-992 | a number is read if and only if it has 31 bits |
| RawTargets.ToIntSpelled | src/service/apfs_mount_service.cpp:991-992 | signs, spaces and what is no number |
| MountAliases.CanonicalDiscoveredTarget | src/service/apfs_mount_service.cpp:961-982 | the searches find the partition a disk target stands for, else the listed spelling |
| MountAliases.CanonicalKeepsRegion | src/service/apfs_mount_service.cpp:961-982 | the canonical target names the same region |
| MountAliases.CanonicalIsNoAlias | src/service/apfs_mount_service.cpp:961-982 | a canonical target is not an alias again |
| MountAliases.CanonicalPaths | src/service/apfs_mount_service.cpp:961-982 | a disk is replaced by the path of a partition that starts where it does, if there is one; other targets keep their letters |
| MountAliases.ExactPaths | src/service/apfs_mount_service.cpp:1138-1141 | the path of a partition counts as exact, the path of a disk does not |
| MountAliases.ChooseDuplicate | src/service/apfs_mount_service.cpp:1172-1180 | a duplicate takes the entry over exactly when it is the region's first exact one |
| MountAliases.ChoiceIsUnique | src/service/apfs_mount_service.cpp:1127-1194 | first appearance and exactness determine which entries are chosen, so the specification leaves one result |
| MountAliases.ChosenIsSettled | src/service/apfs_mount_service.cpp:1127-1194 | the entries chosen have distinct regions and no aliases, and no region is lost |
| MountAliases.MountTable.CanonicalizeDiscoveredMountAliases | src/service/apfs_mount_service.cpp:1127-1194 | one entry for each region in order of first appearance, the first exact one if any; no entry is left under the path of a disk that a partition starts; a change is reported if and only if there is something to do, so a second pass reports none |
| DriveLetters.UsedDriveLetters | src/service/apfs_mount_service.cpp:919-934 | the letters of the system and of the listed mounts |
| DriveLetters.DriveOccupies | src/service/apfs_mount_service.cpp:927-932 | a drive in either case, alone or before a path, occupies its capital letter |
| DriveLetters.LettersSpelled | src/service/apfs_mount_service.cpp:927-932 | what occupies a letter and what does not |
| DriveLetters.NextAvailableMount | src/service/apfs_mount_service.cpp:936-945 | the last free letter from D to Z, and none if and only if all 23 are used |
| DriveLetters.PreferredMountForTarget | src/service/apfs_mount_service.cpp:947-959 | the first preferred mount of the same target |
| DriveLetters.PreferredIsFirst | src/service/apfs_mount_service.cpp:947-959 | the first of the preferred mounts with the target in any case is found, and none if and only if there is none |
| DriveLetters.EntryFor | src/service/apfs_mount_service.cpp:1209-1233 | the settings of a new mount: those of the preferred one, or writable and enabled under the last free letter, or none |
| DriveLetters.HighestExact | src/service/apfs_mount_service.cpp:936-945 | letters given from the top, one for each that asks, are exactly the last free ones |
| DriveLetters.LettersUniqueIff | src/service/apfs_mount_service.cpp:1196-1246 | after a merge the new letters are distinct and unused if and only if the preferred ones were clear of each other, of the used and of the last free letters before it |
| DriveLetters.NoPreferenceIsClear | src/service/apfs_mount_service.cpp:1196-1246 | without preferred mounts the new letters are always distinct and unused |
| MountAliases.PreferredLetterClash | src/service/apfs_mount_service.cpp:1217-1225 | a merge that mounts two volumes under one preferred letter |
| MountAliases.MountTable.MergeDiscoveredMounts | src/service/apfs_mount_service.cpp:1196-1246 | existing mounts stay as a prefix; each new one has a region of its own; every volume is covered or reported, and none is reported while there are as many free letters as volumes; a new mount has the settings of the first preferred one, or is writable under a letter that nobody has; the letters given out are exactly the last free ones, one for each volume that asks |
| MountAliases.EachStartHasItsEntry | src/service/apfs_mount_service.cpp:1196-1246 | volumes that start at different places each have an entry of their own |
| MountAliases.SecondPartition | src/service/apfs_mount_service.cpp:1196-1246 | beside a mounted partition the second partition of its disk is mounted |
| MountAliases.AddedKeepsDistinct | src/service/apfs_mount_service.cpp:1196-1246 | merging keeps regions distinct |
| WorkerSupervision.ReadMountConfigWithAutoDiscovery | src/service/apfs_mount_service.cpp:1248-1280 | the mounts in force have distinct regions and keep every configured region, with letters as the merge gives them; an error gives nothing |
| WorkerSupervision.RunnableIsDistinct | src/service/apfs_mount_service.cpp:2440-2486 | the runnable mounts are the enabled ones that open, with distinct regions |
| WorkerSupervision.RunnableInOrder | src/service/apfs_mount_service.cpp:2440-2486 | the enabled mounts that open are run, in order |
| WorkerSupervision.MissingIsExclusive | src/service/apfs_mount_service.cpp:2626-2634 | a configuration without a worker is in a region without a worker |
| WorkerSupervision.ExclusiveIsOneToOne | src/service/apfs_mount_service.cpp:2560-2590 | workers and configurations of distinct regions that cover each other correspond one to one |
| WorkerSupervision.Service.StartConfiguredWorkers | src/service/apfs_mount_service.cpp:2542-2558 | exactly one start attempt for each runnable mount, in order, with its process, time and counts |
| WorkerSupervision.Service.SyncConfiguredWorkers | src/service/apfs_mount_service.cpp:2606-2635 | a worker whose target and mount, in any case, and flags are wanted stays as it is, the rest stop, the missing start; one to one with the runnable mounts; an unreadable configuration changes nothing |
| WorkerSupervision.Service.RemoveUnwanted | src/service/apfs_mount_service.cpp:2615-2624 | exactly the wanted workers remain, in order and untouched |
| WorkerSupervision.KeptStays | src/service/apfs_mount_service.cpp:2560-2590 | a worker stays if a configuration has its target and mount in any case and its three flags |
| WorkerSupervision.Service.AddMissing | src/service/apfs_mount_service.cpp:2626-2634 | what is wanted and has no worker gets exactly one |
| WorkerSupervision.OneToOneServes | src/service/apfs_mount_service.cpp:2626-2634 | every configuration has a worker with its settings |
| WorkerSupervision.Service.SuperviseWorkers | src/service/apfs_mount_service.cpp:2637-2661 | a worker whose process runs is unchanged; one whose process has ended gets exactly one start attempt, with its process, time and counts, or none and no process if the last attempt is less than 5000 ms old |
| WorkerSupervision.LiveIsAtMostOne | src/service/apfs_mount_service.cpp:2637-2661 | if no region has two workers, none is served by two processes |
| WorkerSupervision.Service.StopWorkers | src/service/apfs_mount_service.cpp:2663-2668 | no worker and no process is left, and none doubled on the way |
| WorkerSupervision.Service.Run | src/service/apfs_mount_service.cpp:2822-2851 | from start to stop, at no moment do two processes serve one region or two workers have it; in the end no process is left |
| Crc32.CreateCrcTable | scripts/build-release-package.ps1:213-224 | every table entry is its index shifted through the polynomial eight times |
| Crc32.TableEntry | scripts/build-release-package.ps1:218-221 | one entry is its index shifted through the polynomial eight times |
| Crc32.ShiftTimesXor | scripts/build-release-package.ps1:219-220 | shifting is linear over exclusive or |
| Crc32.PolynomialTerms | scripts/build-release-package.ps1:219-220 | the polynomial by the exponents of its terms |
| Crc32.OnWords | scripts/build-release-package.ps1:219-220 | one step in the arithmetic of a 32-bit word |
| Crc32.CheckValue | scripts/build-release-package.ps1:202-211 | the CRC of the digits from 1 to 9 is the published one |
| Crc32.SerialIsParallel | scripts/build-release-package.ps1:207-209 | feeding bits one by one is shifting the register with the bits mixed in |
| Crc32.TableFeedsOneByte | scripts/build-release-package.ps1:209-209 | one table step feeds the eight bits of a byte |
| Crc32.ComputeCrc32 | scripts/build-release-package.ps1:202-211 | the result is the bit-by-bit CRC of all chunks together, however the stream is cut |
| ZipFormat.OffsetPointsAtItsHeader | scripts/build-release-package.ps1:135-154 | every recorded offset is where the local header and content of its entry are |
| ZipFormat.DirectoryReadsBack | scripts/build-release-package.ps1:163-183 | every central record reads back to its entry |
| ZipFormat.ArchiveReadsBack | scripts/build-release-package.ps1:108-200 | both the walk over local headers and the central directory give back names, contents and CRCs; the readers check every field, both counts and the size of the directory, and that nothing lies between the records |
| ZipFormat.ArchiveInjective | scripts/build-release-package.ps1:108-200 | different inputs give different archives |
| ZipFormat.FitsMeans | scripts/build-release-package.ps1:110-190 | the bounds in numbers: 65535 entries, names of 65535 bytes, sizes and the end of the directory within 32 bits |
| ZipFormat.ArchiveSize | scripts/build-release-package.ps1:135-200 | 22 bytes, and for each member 76, its name twice and its content |
| StoreZip.Create | scripts/build-release-package.ps1:108-200 | the archive is written if and only if every path exists and every field fits its width, and then it is the format's archive; which error otherwise |
| StoreZip.FileCrc | scripts/build-release-package.ps1:132-134 | the recorded number is the CRC of the content |
| StoreZip.WriteCentralDirectory | scripts/build-release-package.ps1:163-184 | the directory is the central records in order |
| StoreZip.CreatedArchiveReadsBack | scripts/build-release-package.ps1:108-200 | a written archive gives back exactly the selected files |

## Left out

- StagedWrites.ApfsMountState.WriteFile: the bytes of a gap in a memory buffer and of a grown buffer are unspecified, as the buffer type leaves them; zeros are claimed for host files only.
- StagedWrites.ApfsMountState.Session: one handle for each file; another handle's cached size can go stale in the source. What a callback does that needs a reader when there is none is not modelled: the source uses a null pointer there.
- StagedWrites.ApfsMountState.WriteStagedFile: a host file either opens or not; partial reads and writes of an open one are not modelled.
- Directories, renames, hard links, timestamps, allocation rounding and attribute bits: easy members that add little.
- Path normalization: paths are already normalized; normalizing twice can differ from normalizing once (`/foo /`).
- ImageReplacement.ImageStore.Live: one worker for an image at a time, image names that do not carry the mark `-backup-`, process numbers of dead workers not reused when a worker starts, later images with later modification times; renaming a backup works.
- ImageReplacement.ImageStore.Listing: image names without `[`, which the listing's wildcard reads as a set of characters; the pattern's case folding is that of ASCII.
- The volume writer behind a commit: it produces a complete image or reports failure; its format is not part of this model.
- AttributePolicy.CollisionKeys: Unicode case folding is a parameter; names are well-formed Unicode.
- ExtendedAttributes.EaMutationCollector.Collect: the set of content-critical names is a parameter, because its constants are declared in a part of the program that is not part of this model.
- ExtendedAttributes.PrepareRecords: the final sorting of the records and the size of the caller's buffer are not modelled; so `ReportAndCollect` feeds them back in the order of the attributes.
- Utf8.DecodeIff: byte order marks, which Qt's decoder may drop, are ordinary characters here.
- ReparsePoints.ParseSymbolicLinkReparseData: buffers are words of 16 bits with a size in bytes, so byte order does not appear; case folding is a parameter that acts on single words.
- DirectoryPaging.Enumerate: the directory does not change between pages, its names are not empty, and every page has room for any one entry.
- RawTargets.SameRegionIff: the disks do not change, a scan agrees with what the system says about a partition's start, and every discovered partition has its own device path.
- WorkerSupervision.Service.Run: a worker that is told to stop stops; a process that ends by itself counts as alive until the round of supervision that sees it; writing the configuration file and logging are not modelled.
- WorkerSupervision.Service.SuperviseWorkers: elapsed time is a number of milliseconds given by the caller.
- StoreZip.Create: how a path is resolved below the root (a path that is not resolved to a file there counts as missing), and the script around the class that chooses and sorts the paths; files do not change while they are read.
- Integers of fixed width are bit sequences in the CRC and Base32 models, and bounded integers elsewhere.
- WinFsp, service control, device notification, security descriptors, process creation, configuration files, local sockets and the manager's user interface: calls into other systems and plumbing.
