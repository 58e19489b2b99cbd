/** File handles of the mount worker (src/worker/apfs_winfs_worker.cpp). What a handle's reader
    sees lives in the committed file, in a memory buffer or in a host temporary file; the methods
    move it between the three. One handle per file, paths already normalized. */
module StagedWrites {
  import opened Common

  /** 64 MiB: the most one commit may carry from memory. */
  const MAX_MUTATION := 0x400_0000

  datatype Status =
    | Success
    | EndOfFile
    | AccessDenied
    | FileTooLarge
    | ObjectNameNotFound
    | ObjectNameCollision
    | DirectoryNotEmpty
    | MediaWriteProtected

  /** How a commit ends. The mutation is on the volume as a whole or not at all; then the volume is
      opened again and the entry looked up. Any of this can fail, so a commit that is not answered with
      success may still have been written. `readerOpen` says whether there is a reader afterwards. */
  datatype CommitResult = CommitResult(written: bool, answer: Status, readerOpen: bool)

  const DONE := CommitResult(true, Success, true)

  type Commit = r: CommitResult | r.answer == Success ==> r == DONE witness DONE

  /** What the world answers during one callback. `fill` is what uninitialised memory holds. */
  datatype Env = Env(readerOk: bool, commit: Commit, hostOpens: bool, fill: nat -> Byte)

  // The plain byte sequence

  /** Bytes outside the written range stay; bytes of a gap before it may be anything. */
  ghost predicate PlainWrite(before: seq<Byte>, offset: nat, data: seq<Byte>, after: seq<Byte>) {
    && |after| == Max(|before|, offset + |data|)
    && after[offset..offset + |data|] == data
    && forall i :: 0 <= i < |before| && !(offset <= i < offset + |data|) ==> after[i] == before[i]
  }

  /** Kept bytes stay; grown bytes may be anything. */
  ghost predicate PlainResize(before: seq<Byte>, size: nat, after: seq<Byte>) {
    && |after| == size
    && forall i :: 0 <= i < Min(size, |before|) ==> after[i] == before[i]
  }

  /** Grown bytes are zero. */
  ghost predicate ZeroFrom(bytes: seq<Byte>, from: nat, until: nat) {
    forall i :: from <= i < Min(until, |bytes|) ==> bytes[i] == 0
  }

  function Window(bytes: seq<Byte>, offset: nat, length: nat): (window: seq<Byte>)
    requires offset <= |bytes|
    ensures |window| == if offset + length <= |bytes| then length else |bytes| - offset
    ensures forall i :: 0 <= i < |window| ==> window[i] == bytes[offset + i]
  {
    bytes[offset..Min(offset + length, |bytes|)]
  }

  lemma PlainWriteLength(before: seq<Byte>, offset: nat, data: seq<Byte>, after: seq<Byte>)
    requires PlainWrite(before, offset, data, after)
    ensures |after| == Max(|before|, offset + |data|)
  {
  }

  // Buffers and host files

  /** `QFile::resize`: grown bytes are zero. */
  function ResizedFile(bytes: seq<Byte>, size: nat): (resized: seq<Byte>)
    ensures PlainResize(bytes, size, resized) && ZeroFrom(resized, |bytes|, size)
    ensures size == |bytes| ==> resized == bytes
  {
    if size <= |bytes| then bytes[..size] else bytes + seq(size - |bytes|, i => 0)
  }

  /** `QByteArray::resize`: grown bytes are whatever memory held. */
  function ResizedBuffer(bytes: seq<Byte>, size: nat, fill: nat -> Byte): (resized: seq<Byte>)
    ensures PlainResize(bytes, size, resized)
  {
    if size <= |bytes| then bytes[..size]
    else bytes + seq(size - |bytes|, i requires 0 <= i => fill(i))
  }

  /** `memcpy` into a buffer that is large enough. */
  function CopiedInto(bytes: seq<Byte>, offset: nat, data: seq<Byte>): (r: seq<Byte>)
    requires offset + |data| <= |bytes|
    ensures PlainWrite(bytes, offset, data, r)
  {
    bytes[..offset] + data + bytes[offset + |data|..]
  }

  /** `QFile::write` at a position inside the file or at its end. */
  function WrittenAt(file: seq<Byte>, offset: nat, data: seq<Byte>): (r: seq<Byte>)
    requires offset <= |file|
    ensures PlainWrite(file, offset, data, r)
  {
    file[..offset] + data + (if offset + |data| < |file| then file[offset + |data|..] else [])
  }

  /** Growing first and then writing at the end of the grown part is one plain write. */
  lemma GrowThenWrite(before: seq<Byte>, size: nat, grown: seq<Byte>, offset: nat, data: seq<Byte>, after: seq<Byte>)
    requires PlainResize(before, size, grown) && |before| <= size <= Max(|before|, offset + |data|)
    requires PlainWrite(grown, offset, data, after)
    ensures PlainWrite(before, offset, data, after)
    ensures ZeroFrom(grown, |before|, offset) && offset <= size ==> ZeroFrom(after, |before|, offset)
  {
  }

  // Runs

  /** A callback on one handle, with what the world answers while it runs. */
  datatype Request =
    | Read(offset: UInt64, length: UInt32, env: Env)
    | Write(buffer: seq<Byte>, offset: UInt64, writeToEndOfFile: bool, env: Env)
    | SetSize(size: UInt64, setAllocationSize: bool, env: Env)
    | Overwrite
    | Flush(env: Env)

  datatype Response = Response(status: Status, bytes: seq<Byte>)

  /** What a plain file would hold: the bytes its handle sees and the bytes on the volume. */
  datatype Plain = Plain(view: seq<Byte>, saved: seq<Byte>)

  /** What a mount is opened with. */
  datatype Mount = Mount(readOnly: bool, rawTarget: bool, readLimit: nat)

  /** One callback seen from outside: no buffers, no temporary files, no flags. A call that fails
      changes nothing, unless its commit was written but not answered with success. */
  ghost predicate PlainStep(mount: Mount, before: Plain, request: Request, response: Response, after: Plain) {
    && PlainAnswer(mount, before, request, response)
    && match request
       case Read(offset, length, _) =>
         && after == before
         && (response.status == Success ==>
               && offset < |before.view| && response.bytes <= Window(before.view, offset, length)
               && (offset + length <= mount.readLimit ==> response.bytes == Window(before.view, offset, length)))
       case Write(buffer, offset, writeToEndOfFile, env) =>
         if buffer == [] || (response.status != Success && !(env.commit.written && env.commit.answer != Success)) then
           after == before
         else
           || (response.status != Success && after == before)
           || (&& PlainWrite(before.view, if writeToEndOfFile then |before.view| else offset, buffer, after.view)
               && (after.saved == after.view || (response.status == Success && after.saved == before.saved)))
       case SetSize(size, setAllocationSize, env) =>
         if || (setAllocationSize && size >= |before.view|)
            || (response.status != Success && !(env.commit.written && env.commit.answer != Success)) then
           after == before
         else
           || (response.status != Success && after == before)
           || (&& PlainResize(before.view, size, after.view)
               && (after.saved == after.view || (response.status == Success && after.saved == before.saved)))
       case Overwrite =>
         after == if response.status == Success then Plain([], before.saved) else before
       case Flush(env) =>
         if response.status == Success then after == Plain(before.view, before.view)
         else after == before || (env.commit.written && env.commit.answer != Success && after == Plain(before.view, before.view))
  }

  /** Which calls succeed. On a writable mount nothing fails in a world that answers well while contents
      stay within 64 MiB; nothing succeeds beyond that on an image, and no change on a read-only mount. */
  ghost predicate PlainAnswer(mount: Mount, before: Plain, request: Request, response: Response) {
    match request
    case Read(offset, length, env) =>
      && (offset < |before.view| && offset < mount.readLimit && length > 0 && env.hostOpens && env.readerOk ==>
            response.status == Success)
      && (offset >= |before.view| && env.hostOpens ==> response.status == EndOfFile)
      && (response.status == EndOfFile ==> offset >= |before.view| || offset >= mount.readLimit || length == 0)
      && (response.status != Success ==> response.bytes == [])
    case Write(buffer, offset, writeToEndOfFile, env) =>
      var end := (if writeToEndOfFile then |before.view| else offset) + |buffer|;
      && (mount.readOnly ==> response.status == MediaWriteProtected)
      && (!mount.readOnly && buffer == [] ==> response.status == Success)
      && (!mount.readOnly && |before.view| <= 0x400_0000 && end <= 0x400_0000
          && env.readerOk && env.hostOpens && env.commit.answer == Success ==>
            response.status == Success)
      && (!mount.rawTarget && buffer != [] && end > 0x400_0000 ==> response.status != Success)
    case SetSize(size, setAllocationSize, env) =>
      && (mount.readOnly ==> response.status == MediaWriteProtected)
      && (!mount.readOnly && setAllocationSize && |before.view| <= size <= 0x400_0000 ==> response.status == Success)
      && (!mount.readOnly && |before.view| <= 0x400_0000 && size <= 0x400_0000
          && env.readerOk && env.hostOpens && env.commit.answer == Success ==>
            response.status == Success)
      && (!mount.rawTarget && size > 0x400_0000 ==> response.status != Success)
    case Overwrite => response.status == if mount.readOnly then MediaWriteProtected else Success
    case Flush(env) => !mount.readOnly && env.commit.answer == Success ==> response.status == Success
  }

  /** Whether a call has changed something, or said so. */
  predicate Took(before: Plain, response: Response, after: Plain) {
    response.status == Success || after != before
  }

  ghost predicate PlainRun(mount: Mount, trace: seq<Plain>, requests: seq<Request>, responses: seq<Response>) {
    && |trace| == |requests| + 1 && |responses| == |requests|
    && forall k {:trigger requests[k]} :: 0 <= k < |requests| ==>
          PlainStep(mount, trace[k], requests[k], responses[k], trace[k + 1])
  }

  /** A gap before a write and the grown part of a resize have unspecified bytes. */
  predicate Determined(view: seq<Byte>, request: Request) {
    match request
    case Write(_, offset, writeToEndOfFile, _) => writeToEndOfFile || offset <= |view|
    case SetSize(size, _, _) => size <= |view|
    case _ => true
  }

  /** The byte sequence after one request, given whether it took effect. */
  function Next(view: seq<Byte>, request: Request, ok: bool): seq<Byte>
    requires Determined(view, request)
  {
    if !ok then view else
    match request
    case Write(buffer, offset, writeToEndOfFile, _) =>
      if buffer == [] then view
      else if writeToEndOfFile then view + buffer
      else WrittenAt(view, offset, buffer)
    case SetSize(size, setAllocationSize, _) => if setAllocationSize && size >= |view| then view else view[..size]
    case Overwrite => []
    case _ => view
  }

  ghost predicate AllDetermined(trace: seq<Plain>, requests: seq<Request>)
    requires |trace| == |requests| + 1
  {
    forall k {:trigger requests[k]} :: 0 <= k < |requests| ==> Determined(trace[k].view, requests[k])
  }

  lemma PlainWriteIsUnique(before: seq<Byte>, offset: nat, data: seq<Byte>, after: seq<Byte>)
    requires PlainWrite(before, offset, data, after) && offset <= |before|
    ensures after == WrittenAt(before, offset, data)
  {
    var expected := WrittenAt(before, offset, data);
    forall i | 0 <= i < |after|
      ensures after[i] == expected[i]
    {
      if offset <= i < offset + |data| {
        assert after[offset..offset + |data|][i - offset] == data[i - offset];
      }
    }
  }

  lemma StepIsNext(mount: Mount, before: Plain, request: Request, response: Response, after: Plain)
    requires PlainStep(mount, before, request, response, after)
    requires match request
             case Write(_, offset, writeToEndOfFile, _) => writeToEndOfFile || offset <= |before.view|
             case SetSize(size, _, _) => size <= |before.view|
             case _ => true
    ensures Determined(before.view, request)
    ensures after.view == Next(before.view, request, Took(before, response, after))
  {
    if Took(before, response, after) {
      if request.Write? && request.buffer != [] {
        var offset := if request.writeToEndOfFile then |before.view| else request.offset;
        PlainWriteIsUnique(before.view, offset, request.buffer, after.view);
      } else if request.SetSize? && !(request.setAllocationSize && request.size >= |before.view|) {
        assert after.view == before.view[..request.size];
      }
    }
  }

  /** The same call, whatever the world answers. */
  predicate SameCall(a: Request, b: Request) {
    match a
    case Read(offset, length, _) => b.Read? && b.offset == offset && b.length == length
    case Write(buffer, offset, writeToEndOfFile, _) =>
      b.Write? && b.buffer == buffer && b.offset == offset && b.writeToEndOfFile == writeToEndOfFile
    case SetSize(size, setAllocationSize, _) =>
      b.SetSize? && b.size == size && b.setAllocationSize == setAllocationSize
    case Overwrite => b.Overwrite?
    case Flush(_) => b.Flush?
  }

  /** The same calls, which took effect at the same places. */
  ghost predicate SameCalls(trace: seq<Plain>, requests: seq<Request>, responses: seq<Response>,
                            trace': seq<Plain>, requests': seq<Request>, responses': seq<Response>)
    requires |trace| == |requests| + 1 == |responses| + 1 && |trace'| == |requests'| + 1 == |responses'| + 1
  {
    && |requests| == |requests'|
    && forall i {:trigger requests[i]} :: 0 <= i < |requests| ==>
          && SameCall(requests[i], requests'[i])
          && (Took(trace[i], responses[i], trace[i + 1]) <==> Took(trace'[i], responses'[i], trace'[i + 1]))
  }

  lemma SameCallSameNext(view: seq<Byte>, a: Request, b: Request, ok: bool)
    requires SameCall(a, b) && Determined(view, a)
    ensures Determined(view, b) && Next(view, a, ok) == Next(view, b, ok)
  {
  }

  /** Two runs, in two worlds, of the same callbacks with the same effects show their readers the same
      bytes at every step, wherever each of them keeps its content. */
  lemma {:induction false} RunsAgree(mount: Mount, trace: seq<Plain>, requests: seq<Request>, responses: seq<Response>,
                                     trace': seq<Plain>, requests': seq<Request>, responses': seq<Response>, k: nat)
    requires PlainRun(mount, trace, requests, responses) && PlainRun(mount, trace', requests', responses')
    requires AllDetermined(trace, requests) && SameCalls(trace, requests, responses, trace', requests', responses')
    requires trace[0].view == trace'[0].view && k <= |requests|
    ensures trace[k].view == trace'[k].view
  {
    hide PlainStep, Next, SameCall, Took;
    if k > 0 {
      RunsAgree(mount, trace, requests, responses, trace', requests', responses', k - 1);
      var i := k - 1;
      SameCallSameNext(trace[i].view, requests[i], requests'[i], Took(trace[i], responses[i], trace[k]));
      StepIsNext(mount, trace[i], requests[i], responses[i], trace[k]);
      StepIsNext(mount, trace'[i], requests'[i], responses'[i], trace'[k]);
    }
  }

  /** Two runs as in `RunsAgree` answer a read within the limit with the same bytes, in any worlds that let
      it be read. */
  lemma ReadsAgree(mount: Mount, trace: seq<Plain>, requests: seq<Request>, responses: seq<Response>,
                   trace': seq<Plain>, requests': seq<Request>, responses': seq<Response>, k: nat)
    requires PlainRun(mount, trace, requests, responses) && PlainRun(mount, trace', requests', responses')
    requires AllDetermined(trace, requests) && SameCalls(trace, requests, responses, trace', requests', responses')
    requires trace[0].view == trace'[0].view && k < |requests| && requests[k].Read?
    requires requests[k].offset < |trace[k].view| && requests[k].length > 0
    requires requests[k].offset + requests[k].length <= mount.readLimit
    requires requests[k].env.hostOpens && requests[k].env.readerOk
    requires requests'[k].env.hostOpens && requests'[k].env.readerOk
    ensures responses[k] == responses'[k]
    ensures responses[k].status == Success && |responses[k].bytes| > 0
    ensures forall i :: 0 <= i < |responses[k].bytes| ==> responses[k].bytes[i] == trace[k].view[requests[k].offset + i]
  {
    hide Determined, Next, Took, Window;
    RunsAgree(mount, trace, requests, responses, trace', requests', responses', k);
    assert PlainStep(mount, trace[k], requests[k], responses[k], trace[k + 1]);
    assert PlainStep(mount, trace'[k], requests'[k], responses'[k], trace'[k + 1]);
    assert SameCall(requests[k], requests'[k]);
  }

  /** What a successful write has written is what a read of the same range returns. */
  lemma WriteReadsBack(mount: Mount, before: Plain, write: Request, written: Response, middle: Plain,
                       read: Request, response: Response, after: Plain)
    requires PlainStep(mount, before, write, written, middle) && PlainStep(mount, middle, read, response, after)
    requires write.Write? && write.buffer != [] && written.status == Success
    requires read.Read? && read.offset == (if write.writeToEndOfFile then |before.view| else write.offset)
    requires read.length == |write.buffer| && read.offset + read.length <= mount.readLimit
    requires read.env.hostOpens && read.env.readerOk
    ensures response == Response(Success, write.buffer)
  {
    assert Window(middle.view, read.offset, read.length) == middle.view[read.offset..read.offset + |write.buffer|];
  }

  /** Beside the written range, and below a new size, a read returns what was there before. */
  lemma KeptReadsBack(mount: Mount, before: Plain, change: Request, changed: Response, middle: Plain,
                      read: Request, response: Response, after: Plain, i: nat)
    requires PlainStep(mount, before, change, changed, middle) && PlainStep(mount, middle, read, response, after)
    requires read.Read? && response.status == Success && i < |response.bytes| && read.offset + i < |before.view|
    requires !change.Overwrite?
    requires change.Write? ==>
               var offset := if change.writeToEndOfFile then |before.view| else change.offset;
               !(offset <= read.offset + i < offset + |change.buffer|)
    ensures response.bytes[i] == before.view[read.offset + i]
  {
    hide Window, PlainAnswer;
    assert response.bytes[i] == Window(middle.view, read.offset, read.length)[i];
  }

  /** After a call that fails the volume holds what it held or all of what is now viewed; and it holds
      something else than before only if the commit was written without being answered with success. */
  lemma FailureIsWhole(mount: Mount, before: Plain, request: Request, response: Response, after: Plain)
    requires PlainStep(mount, before, request, response, after) && response.status != Success
    ensures after == before || after.saved == after.view
    ensures after != before ==>
              !request.Read? && !request.Overwrite? && request.env.commit.written && request.env.commit.answer != Success
  {
  }

  /** The volume never holds anything but a whole content that the handle's reader has seen. */
  lemma {:induction false} SavedWasViewed(mount: Mount, trace: seq<Plain>, requests: seq<Request>,
                                          responses: seq<Response>, k: nat) returns (j: nat)
    requires PlainRun(mount, trace, requests, responses) && k <= |requests|
    requires trace[0].saved == trace[0].view
    ensures j <= k && trace[k].saved == trace[j].view
  {
    if k == 0 {
      return 0;
    }
    assert PlainStep(mount, trace[k - 1], requests[k - 1], responses[k - 1], trace[k]);
    if trace[k].saved == trace[k].view {
      return k;
    }
    j := SavedWasViewed(mount, trace, requests, responses, k - 1);
  }

  /** After a successful flush the volume keeps what was flushed until a later call takes effect in
      changing the content. */
  lemma {:induction false} FlushedStays(mount: Mount, trace: seq<Plain>, requests: seq<Request>, responses: seq<Response>,
                                        flush: nat, k: nat)
    requires PlainRun(mount, trace, requests, responses) && flush < k <= |requests|
    requires requests[flush].Flush? && responses[flush].status == Success
    requires forall i {:trigger requests[i]} :: flush < i < k ==>
               requests[i].Read? || requests[i].Flush? || !Took(trace[i], responses[i], trace[i + 1])
    ensures trace[k] == Plain(trace[flush].view, trace[flush].view)
  {
    assert PlainStep(mount, trace[k - 1], requests[k - 1], responses[k - 1], trace[k]);
    if k > flush + 1 {
      FlushedStays(mount, trace, requests, responses, flush, k - 1);
    }
  }

  /** A host temporary file; its name is unique, so the object stands for it. */
  class HostFile {
    var bytes: seq<Byte>
    var removed: bool

    constructor (bytes: seq<Byte>)
      ensures this.bytes == bytes && !removed
    {
      this.bytes, removed := bytes, false;
    }
  }

  class FileContext {
    const path: string
    const createdByThisHandle: bool
    var sizeBytes: UInt64
    var stagedWriteActive: bool
    var stagedWriteDirty: bool
    var deletePending: bool
    var stagedWriteData: seq<Byte>
    var stagedWriteFile: HostFile?
    var stagedWriteFileBacked: bool

    constructor (path: string, sizeBytes: UInt64, created: bool)
      ensures this.path == path && this.sizeBytes == sizeBytes && createdByThisHandle == created
      ensures !stagedWriteActive && !stagedWriteDirty && !deletePending && !stagedWriteFileBacked
      ensures stagedWriteData == [] && stagedWriteFile == null
    {
      this.path, this.sizeBytes, createdByThisHandle := path, sizeBytes, created;
      stagedWriteActive, stagedWriteDirty, deletePending := false, false, false;
      stagedWriteData, stagedWriteFile, stagedWriteFileBacked := [], null, false;
    }

    predicate Staged()
      reads this
    {
      createdByThisHandle || stagedWriteActive
    }
  }

  class ApfsMountState {
    const readOnly: bool
    const rawTarget: bool
    const maxFileReadBytes: UInt64
    /** The committed files. */
    var volume: map<string, seq<Byte>>
    /** Whether there is a reader; callbacks that need one use it without looking. */
    var readerOpen: bool

    constructor (readOnly: bool, rawTarget: bool, maxFileReadBytes: UInt64, volume: map<string, seq<Byte>>)
      ensures this.readOnly == readOnly && this.rawTarget == rawTarget
      ensures this.maxFileReadBytes == maxFileReadBytes && this.volume == volume && readerOpen
    {
      this.readOnly, this.rawTarget, this.maxFileReadBytes := readOnly, rawTarget, maxFileReadBytes;
      this.volume, readerOpen := volume, true;
    }

    predicate Stored(c: FileContext)
      reads this, c, c.stagedWriteFile
    {
      c.path in volume && (c.stagedWriteFileBacked <==> c.stagedWriteFile != null)
    }

    /** What the handle's reader sees. */
    function View(c: FileContext): seq<Byte>
      requires Stored(c)
      reads this, c, c.stagedWriteFile
    {
      if !c.stagedWriteActive then volume[c.path]
      else if c.stagedWriteFileBacked then c.stagedWriteFile.bytes
      else c.stagedWriteData
    }

    /** The handle's invariant. */
    predicate Valid(c: FileContext)
      reads this, c, c.stagedWriteFile
    {
      && Stored(c)
      && c.sizeBytes == |View(c)|
      && (!c.stagedWriteActive ==> readerOpen)
      && (!c.stagedWriteActive ==> !c.stagedWriteDirty && !c.stagedWriteFileBacked && c.stagedWriteData == [])
      && (c.stagedWriteActive && !c.stagedWriteDirty ==> View(c) == volume[c.path])
      && (c.stagedWriteFileBacked ==>
            rawTarget && c.stagedWriteData == [] && !c.stagedWriteFile.removed && |View(c)| <= INT64_MAX)
      && (c.stagedWriteActive && !c.stagedWriteFileBacked ==> |c.stagedWriteData| <= MAX_MUTATION)
    }

    // Opening and creating

    method OpenContext(path: string) returns (status: Status, c: FileContext?)
      requires readerOpen && (path in volume ==> |volume[path]| <= UINT64_MAX)
      ensures status == if path in volume then Success else ObjectNameNotFound
      ensures status == Success <==> c != null
      ensures c != null ==> fresh(c) && c.path == path && Valid(c) && !c.Staged() && !c.deletePending
      ensures c != null ==> View(c) == volume[path] && c.stagedWriteFile == null
    {
      if path !in volume {
        return ObjectNameNotFound, null;
      }
      c := new FileContext(path, |volume[path]|, false);
      status := Success;
    }

    /** Creating commits an empty file; when that commit is written but not answered with success, the
        file is there and the caller has an error and no handle. */
    method CreateNode(path: string, env: Env) returns (status: Status, c: FileContext?)
      requires readerOpen
      modifies this`volume, this`readerOpen
      ensures status == if readOnly then MediaWriteProtected
                        else if path in old(volume) then ObjectNameCollision
                        else env.commit.answer
      ensures status == Success <==> c != null
      ensures volume == if !readOnly && path !in old(volume) && env.commit.written then old(volume)[path := []] else old(volume)
      ensures readerOpen == (readOnly || path in old(volume) || env.commit.readerOpen)
      ensures c != null ==> fresh(c) && c.path == path && Valid(c) && View(c) == [] && c.stagedWriteFile == null
      ensures c != null ==> c.createdByThisHandle && !c.stagedWriteActive && !c.deletePending
    {
      if readOnly {
        return MediaWriteProtected, null;
      }
      if path in volume {
        return ObjectNameCollision, null;
      }
      if env.commit.written {
        volume := volume[path := []];
      }
      readerOpen := env.commit.readerOpen;
      status := env.commit.answer;
      if status != Success {
        return status, null;
      }
      c := new FileContext(path, 0, true);
    }

    // Reading

    /** A successful read returns the viewed bytes, wherever they are; only a handle without a stage
        is subject to the mount's read limit. */
    method ReadFile(c: FileContext, offset: UInt64, length: UInt32, env: Env)
      returns (status: Status, bytes: seq<Byte>)
      requires Valid(c)
      ensures status == Success <==>
                && offset < |View(c)|
                && if c.stagedWriteActive then c.stagedWriteFileBacked ==> env.hostOpens
                   else length > 0 && offset < maxFileReadBytes && env.readerOk
      ensures status == EndOfFile <==>
                if c.stagedWriteActive then offset >= |View(c)| && (c.stagedWriteFileBacked ==> env.hostOpens)
                else offset >= |View(c)| || offset >= maxFileReadBytes || (length == 0 && env.readerOk)
      ensures status in {Success, EndOfFile, AccessDenied}
      ensures status == Success ==>
                && offset < |View(c)| && (!c.stagedWriteActive ==> offset < maxFileReadBytes)
                && bytes == Window(View(c), offset,
                                   if c.stagedWriteActive then length else Min(length, maxFileReadBytes - offset))
      ensures status == Success && length > 0 ==> bytes != []
      ensures status != Success ==> bytes == []
    {
      if c.stagedWriteActive {
        if c.stagedWriteFileBacked {
          if !env.hostOpens {
            return AccessDenied, [];
          }
          status, bytes := ReadBytes(c.stagedWriteFile.bytes, offset, length);
          return;
        }
        status, bytes := ReadBytes(c.stagedWriteData, offset, length);
        return;
      }
      if offset >= c.sizeBytes {
        return EndOfFile, [];
      }
      if offset >= maxFileReadBytes {
        return EndOfFile, [];
      }
      var available := Min(c.sizeBytes - offset, maxFileReadBytes - offset);
      var bytesNeeded := Min(length, available);
      if !env.readerOk {
        return AccessDenied, [];
      }
      var data := volume[c.path][offset..offset + bytesNeeded];
      if data == [] {
        return EndOfFile, [];
      }
      return Success, data;
    }

    static method ReadBytes(data: seq<Byte>, offset: UInt64, length: UInt32) returns (status: Status, bytes: seq<Byte>)
      ensures status == if offset >= |data| then EndOfFile else Success
      ensures bytes == if offset >= |data| then [] else Window(data, offset, length)
    {
      if offset >= |data| {
        return EndOfFile, [];
      }
      var available := |data| - offset;
      return Success, data[offset..offset + Min(length, available)];
    }

    // Staging

    static function FetchVerdict(size: nat, env: Env): Status {
      if size > MAX_MUTATION then FileTooLarge
      else if size != 0 && !env.readerOk then AccessDenied
      else Success
    }

    method ReadMutableBytes(c: FileContext, env: Env) returns (status: Status, data: seq<Byte>)
      requires readerOpen && c.path in volume && c.sizeBytes == |volume[c.path]|
      ensures status == if c.sizeBytes > 0x400_0000 then FileTooLarge
                        else if c.sizeBytes != 0 && !env.readerOk then AccessDenied
                        else Success
      ensures data == if status == Success then volume[c.path] else []
    {
      if c.sizeBytes > MAX_MUTATION {
        return FileTooLarge, [];
      }
      if c.sizeBytes == 0 {
        return Success, [];
      }
      if !env.readerOk {
        return AccessDenied, [];
      }
      return Success, volume[c.path];
    }

    method EnsureStagedWriteData(c: FileContext, env: Env) returns (status: Status)
      requires Valid(c)
      modifies c`stagedWriteActive, c`stagedWriteData
      ensures Valid(c) && View(c) == old(View(c))
      ensures status == if old(c.stagedWriteActive) then Success
                        else if |View(c)| > 0x400_0000 then FileTooLarge
                        else if View(c) != [] && !env.readerOk then AccessDenied
                        else Success
      ensures c.stagedWriteActive == (status == Success)
    {
      if c.stagedWriteActive {
        return Success;
      }
      if c.createdByThisHandle && c.sizeBytes == 0 {
        c.stagedWriteData := [];
        c.stagedWriteActive := true;
        return Success;
      }
      var data: seq<Byte>;
      status, data := ReadMutableBytes(c, env);
      c.stagedWriteData := data;
      if status != Success {
        return;
      }
      c.stagedWriteActive := true;
    }

    /** Moves the stage from memory to a new host temporary file. */
    method EnsureFileBackedStage(c: FileContext, env: Env) returns (status: Status)
      requires Valid(c) && c.stagedWriteActive && rawTarget
      modifies c`stagedWriteFile, c`stagedWriteFileBacked, c`stagedWriteData
      ensures Valid(c) && View(c) == old(View(c))
      ensures status == if !old(c.stagedWriteFileBacked) && !env.hostOpens then AccessDenied else Success
      ensures c.stagedWriteFileBacked == (status == Success)
      ensures c.stagedWriteFile == old(c.stagedWriteFile) || fresh(c.stagedWriteFile)
    {
      if c.stagedWriteFileBacked {
        return Success;
      }
      var initialData := c.stagedWriteData;
      var targetSize := Max(c.sizeBytes, |initialData|);
      if targetSize > INT64_MAX {
        return FileTooLarge;
      }
      if !env.hostOpens {
        return AccessDenied;
      }
      c.stagedWriteFile := new HostFile(ResizedFile(initialData, targetSize));
      c.stagedWriteFileBacked := true;
      c.stagedWriteData := [];
      return Success;
    }

    method WriteStagedFile(c: FileContext, buffer: seq<Byte>, offset: UInt64, requiredSize: UInt64, env: Env)
      returns (status: Status)
      requires c.stagedWriteFile != null && requiredSize == offset + |buffer|
      modifies c.stagedWriteFile`bytes
      ensures status == if requiredSize > 0x7fff_ffff_ffff_ffff then FileTooLarge
                        else if !env.hostOpens then AccessDenied
                        else Success
      ensures status == Success ==>
                && PlainWrite(old(c.stagedWriteFile.bytes), offset, buffer, c.stagedWriteFile.bytes)
                && ZeroFrom(c.stagedWriteFile.bytes, |old(c.stagedWriteFile.bytes)|, offset)
      ensures status != Success ==> c.stagedWriteFile.bytes == old(c.stagedWriteFile.bytes)
    {
      if offset > INT64_MAX || requiredSize > INT64_MAX {
        return FileTooLarge;
      }
      if !env.hostOpens {
        return AccessDenied;
      }
      var file := c.stagedWriteFile.bytes;
      if offset > |file| {
        file := ResizedFile(file, offset);
      }
      // The write itself extends the file to `requiredSize`, so the source's second resize is idle.
      c.stagedWriteFile.bytes := WrittenAt(file, offset, buffer);
      return Success;
    }

    // Committing

    /** The commit of bytes held in memory. The entry is read back from the volume, so the cached size
        follows only a commit that is answered with success. */
    method CommitFileWrite(c: FileContext, data: seq<Byte>, env: Env) returns (status: Status)
      modifies this`volume, this`readerOpen, c`sizeBytes
      ensures status == if |data| > 0x400_0000 then FileTooLarge else env.commit.answer
      ensures volume == if |data| <= 0x400_0000 && env.commit.written then old(volume)[c.path := data] else old(volume)
      ensures readerOpen == if |data| <= 0x400_0000 then env.commit.readerOpen else old(readerOpen)
      ensures c.sizeBytes == if status == Success then |data| else old(c.sizeBytes)
    {
      if |data| > MAX_MUTATION {
        return FileTooLarge;
      }
      if env.commit.written {
        volume := volume[c.path := data];
      }
      readerOpen := env.commit.readerOpen;
      status := env.commit.answer;
      if status == Success {
        c.sizeBytes := |data|;
      }
    }

    /** The commit of a staged host file. Only raw targets take it as a stream; an image target would
        have to read it into memory, within the limit. A file that is not of the announced size is
        refused. */
    method CommitFileWriteFromPath(c: FileContext, file: HostFile?, dataSize: UInt64, env: Env)
      returns (status: Status)
      modifies this`volume, this`readerOpen, c`sizeBytes
      ensures status == if file == null || file.removed then ObjectNameNotFound
                        else if !rawTarget && dataSize > 0x400_0000 then FileTooLarge
                        else if !rawTarget && (!env.hostOpens || |file.bytes| != dataSize) then AccessDenied
                        else if |file.bytes| != dataSize then AccessDenied
                        else env.commit.answer
      ensures var reached := file != null && !file.removed && (rawTarget || (dataSize <= 0x400_0000 && env.hostOpens));
              var fits := file != null && |file.bytes| == dataSize;
              && volume == (if reached && fits && env.commit.written then old(volume)[c.path := file.bytes] else old(volume))
              && readerOpen == if reached && (rawTarget || fits) then env.commit.readerOpen else old(readerOpen)
      ensures c.sizeBytes == if status == Success then dataSize else old(c.sizeBytes)
    {
      if file == null || file.removed {
        return ObjectNameNotFound;
      }
      if !rawTarget {
        if dataSize > MAX_MUTATION {
          return FileTooLarge;
        }
        if !env.hostOpens || |file.bytes| != dataSize {
          return AccessDenied;
        }
        status := CommitFileWrite(c, file.bytes, env);
        return;
      }
      readerOpen := env.commit.readerOpen;
      if |file.bytes| != dataSize {
        return AccessDenied;
      }
      if env.commit.written {
        volume := volume[c.path := file.bytes];
      }
      status := env.commit.answer;
      if status == Success {
        c.sizeBytes := dataSize;
      }
    }

    /** A handle without a stage survives a commit that is answered with success, or that leaves a
        reader and the size it has cached. */
    static predicate Survives(commit: Commit, size: nat, newSize: nat) {
      commit.answer == Success || (commit.readerOpen && newSize == size)
    }

    // Writing

    /** What a write answers, in terms of the viewed size and of where the content is. */
    ghost function WriteVerdict(c: FileContext, offset: nat, length: nat, env: Env): Status
      reads c
    {
      var required := offset + length;
      var fetched := if c.stagedWriteActive then Success else FetchVerdict(c.sizeBytes, env);
      if readOnly then MediaWriteProtected
      else if length == 0 then Success
      else if fetched != Success then fetched
      else if required > UINT64_MAX then FileTooLarge
      else if c.Staged() && rawTarget && (c.stagedWriteFileBacked || required > MAX_MUTATION) then
        FileStageVerdict(c.stagedWriteFileBacked, required, env)
      else if required > MAX_MUTATION then FileTooLarge
      else if c.Staged() then Success
      else env.commit.answer
    }

    static function FileStageVerdict(backed: bool, required: nat, env: Env): Status {
      if !backed && !env.hostOpens then AccessDenied
      else if required > INT64_MAX then FileTooLarge
      else if !env.hostOpens then AccessDenied
      else Success
    }

    /** The raw-target branch of a staged write: the stage moves to a host file if it has to. */
    method WriteToFileStage(c: FileContext, buffer: seq<Byte>, offset: UInt64, requiredSize: UInt64, env: Env)
      returns (status: Status)
      requires Valid(c) && c.stagedWriteActive && rawTarget && requiredSize == offset + |buffer|
      modifies c, c.stagedWriteFile
      ensures Valid(c) && c.deletePending == old(c.deletePending)
      ensures status == FileStageVerdict(old(c.stagedWriteFileBacked), requiredSize, env)
      ensures status == Success ==>
                && PlainWrite(old(View(c)), offset, buffer, View(c)) && c.stagedWriteDirty && c.stagedWriteActive
                && ZeroFrom(View(c), |old(View(c))|, offset)
      ensures status != Success ==> View(c) == old(View(c)) && c.stagedWriteDirty == old(c.stagedWriteDirty)
      ensures c.stagedWriteFile == old(c.stagedWriteFile) || fresh(c.stagedWriteFile)
    {
      hide PlainWrite, ZeroFrom;
      status := EnsureFileBackedStage(c, env);
      if status != Success {
        return;
      }
      status := WriteStagedFile(c, buffer, offset, requiredSize, env);
      if status != Success {
        return;
      }
      PlainWriteLength(old(View(c)), offset, buffer, c.stagedWriteFile.bytes);
      c.stagedWriteActive := true;
      c.stagedWriteDirty := true;
      c.sizeBytes := Max(c.sizeBytes, requiredSize);
    }

    /** How writing and resizing end when the new content is in memory: it becomes the stage, or,
        without a stage, the committed file. */
    method StoreInMemory(c: FileContext, data: seq<Byte>, staged: bool, env: Env) returns (status: Status)
      requires Valid(c) && |data| <= MAX_MUTATION && !c.stagedWriteFileBacked
      requires !staged ==> !c.stagedWriteActive
      modifies this`volume, this`readerOpen, c`sizeBytes, c`stagedWriteActive, c`stagedWriteDirty, c`stagedWriteData
      ensures Stored(c) && c.stagedWriteActive == c.stagedWriteDirty == staged
      ensures status == if staged then Success else env.commit.answer
      ensures staged ==> Valid(c) && volume == old(volume)
      ensures !staged ==> (Valid(c) <==> Survives(env.commit, old(c.sizeBytes), |View(c)|))
      ensures View(c) == if staged || env.commit.written then data else old(View(c))
      ensures !staged ==> volume == old(volume)[c.path := View(c)]
    {
      if staged {
        c.stagedWriteData := data;
        c.stagedWriteActive := true;
        c.stagedWriteDirty := true;
        c.sizeBytes := |data|;
        return Success;
      }
      status := CommitFileWrite(c, data, env);
    }

    /** The bytes a mutation starts from: the stage, which is opened if the handle needs one, or the
        committed file. For a file-backed stage they are not in memory and the result is empty. */
    method MutableData(c: FileContext, staged: bool, env: Env) returns (status: Status, data: seq<Byte>)
      requires Valid(c) && staged == c.Staged()
      modifies c`stagedWriteActive, c`stagedWriteData
      ensures Valid(c) && View(c) == old(View(c))
      ensures status == if old(c.stagedWriteActive) then Success else FetchVerdict(c.sizeBytes, env)
      ensures c.stagedWriteActive == (staged && status == Success)
      ensures status == Success ==> data == if c.stagedWriteFileBacked then [] else View(c)
    {
      if staged {
        status := EnsureStagedWriteData(c, env);
        if status != Success {
          return status, [];
        }
        return Success, c.stagedWriteData;
      }
      status, data := ReadMutableBytes(c, env);
    }

    /** The in-memory branch of a write, within the limit on one mutation. */
    method WriteInMemory(c: FileContext, before: seq<Byte>, buffer: seq<Byte>, offset: nat, staged: bool, env: Env)
      returns (status: Status)
      requires Valid(c) && before == View(c) && |before| <= MAX_MUTATION && !c.stagedWriteFileBacked
      requires !staged ==> !c.stagedWriteActive
      modifies this`volume, this`readerOpen, c`sizeBytes, c`stagedWriteActive, c`stagedWriteDirty, c`stagedWriteData
      ensures Stored(c)
      ensures status == if offset + |buffer| > MAX_MUTATION then FileTooLarge
                        else if staged then Success
                        else env.commit.answer
      ensures offset + |buffer| > MAX_MUTATION ==>
                Valid(c) && View(c) == before && volume == old(volume) && c.stagedWriteDirty == old(c.stagedWriteDirty)
      ensures offset + |buffer| <= MAX_MUTATION ==>
                && c.stagedWriteActive == c.stagedWriteDirty == staged
                && (staged || env.commit.written ==> PlainWrite(before, offset, buffer, View(c)))
                && (!staged && !env.commit.written ==> View(c) == before)
                && volume == (if staged then old(volume) else old(volume)[c.path := View(c)])
                && (Valid(c) <==> staged || Survives(env.commit, old(c.sizeBytes), |View(c)|))
    {
      hide PlainWrite;
      if offset > MAX_MUTATION || |buffer| > MAX_MUTATION - Min(offset, MAX_MUTATION) {
        return FileTooLarge;
      }
      var data := WrittenBuffer(before, offset, buffer, env.fill);
      status := StoreInMemory(c, data, staged, env);
    }

    /** A write at its final offset, with the bytes it starts from at hand. */
    method WriteAt(c: FileContext, data: seq<Byte>, buffer: seq<Byte>, offset: UInt64, staged: bool, env: Env)
      returns (status: Status)
      requires Valid(c) && !readOnly && staged == c.Staged() && c.stagedWriteActive == staged
      requires buffer != [] && data == (if c.stagedWriteFileBacked then [] else View(c))
      requires c.stagedWriteActive || FetchVerdict(c.sizeBytes, env) == Success
      modifies this`volume, this`readerOpen, c, c.stagedWriteFile
      ensures Stored(c) && c.deletePending == old(c.deletePending)
      ensures c.stagedWriteFile == old(c.stagedWriteFile) || fresh(c.stagedWriteFile)
      ensures status == old(WriteVerdict(c, offset, |buffer|, env))
      ensures var commits := !staged && offset + |buffer| <= MAX_MUTATION;
              && (Valid(c) <==> !commits || Survives(env.commit, old(c.sizeBytes), |View(c)|))
              && (status == Success || (commits && env.commit.written) ==> PlainWrite(old(View(c)), offset, buffer, View(c)))
              && (status != Success && !(commits && env.commit.written) ==>
                    View(c) == old(View(c)) && volume == old(volume) && c.stagedWriteDirty == old(c.stagedWriteDirty))
              && (commits ==> status == env.commit.answer && volume == old(volume)[c.path := View(c)] && !c.stagedWriteActive)
      ensures status == Success && staged ==> volume == old(volume) && c.stagedWriteDirty
      ensures status == Success && c.stagedWriteFileBacked ==> ZeroFrom(View(c), |old(View(c))|, offset)
    {
      hide PlainWrite, ZeroFrom, Survives;
      if |buffer| > UINT64_MAX - offset {
        return FileTooLarge;
      }
      var requiredSize: UInt64 := offset + |buffer|;
      if staged && rawTarget && (c.stagedWriteFileBacked || requiredSize > MAX_MUTATION) {
        status := WriteToFileStage(c, buffer, offset, requiredSize, env);
        return;
      }
      status := WriteInMemory(c, data, buffer, offset, staged, env);
    }

    /** A write that succeeds, or whose commit is written although it is not answered with success, is
        the plain write of the bytes at the offset, or at the end of what is viewed; any other changes
        no byte anyone can see. The handle is lost exactly when a commit does not survive. */
    method WriteFile(c: FileContext, buffer: seq<Byte>, offset: UInt64, writeToEndOfFile: bool, env: Env)
      returns (status: Status, transferred: nat)
      requires Valid(c) && |buffer| <= UINT32_MAX
      modifies this`volume, this`readerOpen, c, c.stagedWriteFile
      ensures Stored(c) && c.deletePending == old(c.deletePending)
      ensures c.stagedWriteFile == old(c.stagedWriteFile) || fresh(c.stagedWriteFile)
      ensures var size, active := |old(View(c))|, old(c.stagedWriteActive);
              var staged, backed := old(c.Staged()), old(c.stagedWriteFileBacked);
              var end := (if writeToEndOfFile then size else offset) + |buffer|;
              status == if readOnly then MediaWriteProtected
                        else if buffer == [] then Success
                        else if !active && size > 0x400_0000 then FileTooLarge
                        else if !active && size != 0 && !env.readerOk then AccessDenied
                        else if end > 0xffff_ffff_ffff_ffff then FileTooLarge
                        else if staged && rawTarget && (backed || end > 0x400_0000) then
                          if !env.hostOpens && (!backed || end <= 0x7fff_ffff_ffff_ffff) then AccessDenied
                          else if end > 0x7fff_ffff_ffff_ffff then FileTooLarge
                          else Success
                        else if end > 0x400_0000 then FileTooLarge
                        else if staged then Success
                        else env.commit.answer
      ensures transferred == if status == Success then |buffer| else 0
      ensures var size := |old(View(c))|;
              var commits := && !readOnly && !old(c.Staged()) && buffer != [] && size <= 0x400_0000 && (size == 0 || env.readerOk)
                             && (if writeToEndOfFile then size else offset) + |buffer| <= 0x400_0000;
              && (Valid(c) <==> !commits || env.commit.answer == Success || (env.commit.readerOpen && |View(c)| == size))
              && (buffer != [] && (status == Success || (commits && env.commit.written)) ==>
                    PlainWrite(old(View(c)), if writeToEndOfFile then size else offset, buffer, View(c)))
              && (buffer == [] || (status != Success && !(commits && env.commit.written)) ==>
                    View(c) == old(View(c)) && volume == old(volume) && c.stagedWriteDirty == old(c.stagedWriteDirty))
              && (commits ==> status == env.commit.answer && volume == old(volume)[c.path := View(c)] && !c.stagedWriteActive)
              && (status == Success && buffer != [] && !commits ==> volume == old(volume) && c.stagedWriteDirty)
      ensures status == Success && buffer != [] && c.stagedWriteFileBacked && !writeToEndOfFile ==>
                ZeroFrom(View(c), |old(View(c))|, offset)
    {
      hide PlainWrite, ZeroFrom;
      if readOnly {
        return MediaWriteProtected, 0;
      }
      if buffer == [] {
        return Success, 0;
      }
      var staged := c.Staged();
      var data: seq<Byte>;
      status, data := MutableData(c, staged, env);
      if status != Success {
        return status, 0;
      }
      var stagedSize := if c.stagedWriteFileBacked then c.sizeBytes else |data|;
      var writeOffset := if writeToEndOfFile then stagedSize else offset;
      status := WriteAt(c, data, buffer, writeOffset, staged, env);
      return status, if status == Success then |buffer| else 0;
    }

    /** The in-memory write: the buffer grows if it has to, then the bytes are copied in. */
    static method WrittenBuffer(before: seq<Byte>, offset: nat, buffer: seq<Byte>, fill: nat -> Byte)
      returns (data: seq<Byte>)
      ensures PlainWrite(before, offset, buffer, data)
      ensures |data| == Max(|before|, offset + |buffer|)
    {
      data := before;
      var required := offset + |buffer|;
      if required > |data| {
        data := ResizedBuffer(data, required, fill);
      }
      ghost var grown := data;
      data := CopiedInto(data, offset, buffer);
      GrowThenWrite(before, |grown|, grown, offset, buffer, data);
    }

    /** Such a commit exists: the caller is told that the write failed, the file has the new content, and
        the handle does not know it. */
    method WrittenButFailed(path: string, fill: nat -> Byte) returns (status: Status, c: FileContext?)
      requires readerOpen && !readOnly && path in volume && volume[path] == []
      modifies this`volume, this`readerOpen
      ensures status == AccessDenied && c != null && fresh(c) && c.path == path && !Valid(c)
      ensures volume == old(volume)[path := [1]]
    {
      status, c := OpenContext(path);
      var transferred;
      status, transferred := WriteFile(c, [1], 0, false, Env(true, CommitResult(true, AccessDenied, false), true, fill));
      assert View(c)[0..1] == [1] && View(c) == View(c)[0..1];
    }

    // Resizing

    /** The raw-target branch of a resize. A size the host cannot represent is refused after the
        stage has already moved to the host file. */
    method ResizeFileStage(c: FileContext, newSize: UInt64, env: Env) returns (status: Status)
      requires Valid(c) && c.stagedWriteActive && rawTarget
      modifies c, c.stagedWriteFile
      ensures Valid(c) && c.deletePending == old(c.deletePending)
      ensures status == if !env.hostOpens || newSize > INT64_MAX then AccessDenied else Success
      ensures status == Success ==>
                && PlainResize(old(View(c)), newSize, View(c)) && ZeroFrom(View(c), |old(View(c))|, newSize)
                && c.stagedWriteActive && c.stagedWriteDirty
      ensures status != Success ==> View(c) == old(View(c)) && c.stagedWriteDirty == old(c.stagedWriteDirty)
      ensures c.stagedWriteFile == old(c.stagedWriteFile) || fresh(c.stagedWriteFile)
    {
      hide ZeroFrom;
      status := EnsureFileBackedStage(c, env);
      if status != Success {
        return;
      }
      if !env.hostOpens || newSize > INT64_MAX {
        return AccessDenied;
      }
      c.stagedWriteFile.bytes := ResizedFile(c.stagedWriteFile.bytes, newSize);
      c.stagedWriteActive := true;
      c.stagedWriteDirty := true;
      c.sizeBytes := newSize;
      return Success;
    }

    /** A resize that does something, with the bytes it starts from at hand. */
    method ResizeTo(c: FileContext, data: seq<Byte>, newSize: UInt64, staged: bool, env: Env) returns (status: Status)
      requires Valid(c) && staged == c.Staged() && c.stagedWriteActive == staged
      requires data == (if c.stagedWriteFileBacked then [] else View(c))
      requires newSize <= MAX_MUTATION || (staged && rawTarget)
      modifies this`volume, this`readerOpen, c, c.stagedWriteFile
      ensures Stored(c) && c.deletePending == old(c.deletePending)
      ensures c.stagedWriteFile == old(c.stagedWriteFile) || fresh(c.stagedWriteFile)
      ensures status == if staged && rawTarget && (old(c.stagedWriteFileBacked) || newSize > MAX_MUTATION) then
                          if !env.hostOpens || newSize > INT64_MAX then AccessDenied else Success
                        else if staged then Success
                        else env.commit.answer
      ensures && (Valid(c) <==> staged || Survives(env.commit, old(c.sizeBytes), |View(c)|))
              && (status == Success || (!staged && env.commit.written) ==> PlainResize(old(View(c)), newSize, View(c)))
              && (status != Success && !(!staged && env.commit.written) ==>
                    View(c) == old(View(c)) && volume == old(volume) && c.stagedWriteDirty == old(c.stagedWriteDirty))
              && (!staged ==> volume == old(volume)[c.path := View(c)] && !c.stagedWriteActive)
      ensures status == Success && staged ==>
                && volume == old(volume) && c.stagedWriteDirty
                && (c.stagedWriteFileBacked ==> ZeroFrom(View(c), |old(View(c))|, newSize))
    {
      hide ZeroFrom, PlainResize, Survives;
      if staged && rawTarget && (c.stagedWriteFileBacked || newSize > MAX_MUTATION) {
        status := ResizeFileStage(c, newSize, env);
        return;
      }
      var resized := ResizedBuffer(data, newSize, env.fill);
      status := StoreInMemory(c, resized, staged, env);
    }

    /** A resize that succeeds, or whose commit is written although it is not answered with success,
        keeps the common prefix; an allocation size that does not shrink the file does nothing; any other
        resize changes no byte anyone can see. */
    method SetFileSize(c: FileContext, newSize: UInt64, setAllocationSize: bool, env: Env) returns (status: Status)
      requires Valid(c)
      modifies this`volume, this`readerOpen, c, c.stagedWriteFile
      ensures Stored(c) && c.deletePending == old(c.deletePending)
      ensures c.stagedWriteFile == old(c.stagedWriteFile) || fresh(c.stagedWriteFile)
      ensures var size, active := |old(View(c))|, old(c.stagedWriteActive);
              var staged, backed := old(c.Staged()), old(c.stagedWriteFileBacked);
              status == if readOnly then MediaWriteProtected
                        else if newSize > 0x400_0000 && !(staged && rawTarget) then FileTooLarge
                        else if setAllocationSize && newSize >= size then Success
                        else if !active && size > 0x400_0000 then FileTooLarge
                        else if !active && size != 0 && !env.readerOk then AccessDenied
                        else if staged && rawTarget && (backed || newSize > 0x400_0000) then
                          if !env.hostOpens || newSize > 0x7fff_ffff_ffff_ffff then AccessDenied else Success
                        else if staged then Success
                        else env.commit.answer
      ensures var size := |old(View(c))|;
              var idle := setAllocationSize && newSize >= size;
              var commits := && !readOnly && !old(c.Staged()) && !idle && newSize <= 0x400_0000
                             && size <= 0x400_0000 && (size == 0 || env.readerOk);
              && (Valid(c) <==> !commits || env.commit.answer == Success || (env.commit.readerOpen && |View(c)| == size))
              && (!idle && (status == Success || (commits && env.commit.written)) ==>
                    PlainResize(old(View(c)), newSize, View(c)))
              && (idle || (status != Success && !(commits && env.commit.written)) ==>
                    View(c) == old(View(c)) && volume == old(volume) && c.stagedWriteDirty == old(c.stagedWriteDirty))
              && (commits ==> status == env.commit.answer && volume == old(volume)[c.path := View(c)] && !c.stagedWriteActive)
              && (status == Success && !idle && !commits ==>
                    && volume == old(volume) && c.stagedWriteDirty
                    && (c.stagedWriteFileBacked ==> ZeroFrom(View(c), |old(View(c))|, newSize)))
    {
      hide ZeroFrom, PlainResize;
      if readOnly {
        return MediaWriteProtected;
      }
      var staged := c.Staged();
      if newSize > MAX_MUTATION && !(staged && rawTarget) {
        return FileTooLarge;
      }
      if setAllocationSize && newSize >= c.sizeBytes {
        return Success;
      }
      var data: seq<Byte>;
      status, data := MutableData(c, staged, env);
      if status != Success {
        return;
      }
      status := ResizeTo(c, data, newSize, staged, env);
    }

    /** Replacing the content by nothing. The handle then reads as empty; it keeps its invariant if
        and only if it had a size to lose or there is nothing committed, because the stage counts as
        dirty only when the old size was not zero. */
    method OverwriteFile(c: FileContext) returns (status: Status)
      requires Valid(c)
      modifies c, c.stagedWriteFile
      ensures status == if readOnly then MediaWriteProtected else Success
      ensures status != Success ==> Valid(c) && View(c) == old(View(c)) && c.stagedWriteDirty == old(c.stagedWriteDirty)
      ensures status == Success ==>
                && Stored(c) && View(c) == [] && c.sizeBytes == 0 && c.stagedWriteActive
                && c.stagedWriteFile == null && c.stagedWriteDirty == (old(c.sizeBytes) != 0)
                && (old(c.stagedWriteFile) != null ==> old(c.stagedWriteFile).removed)
                && (Valid(c) <==> old(c.sizeBytes) != 0 || volume[c.path] == [])
      ensures c.deletePending == old(c.deletePending)
      ensures c.stagedWriteFile == old(c.stagedWriteFile) || c.stagedWriteFile == null
    {
      if readOnly {
        return MediaWriteProtected;
      }
      if c.stagedWriteFileBacked {
        c.stagedWriteFile.removed := true;
      }
      c.stagedWriteActive := true;
      c.stagedWriteDirty := c.sizeBytes != 0;
      c.stagedWriteData := [];
      c.stagedWriteFile := null;
      c.stagedWriteFileBacked := false;
      c.sizeBytes := 0;
      return Success;
    }

    /** The other case happens: overwriting a file twice through one handle leaves a handle that reads
        as empty and has nothing to flush, beside a committed file that is not empty. */
    method OverwriteTwice(path: string) returns (c: FileContext?)
      requires readerOpen && !readOnly && path in volume && 0 < |volume[path]| <= UINT64_MAX
      ensures c != null && fresh(c) && c.path == path && Stored(c)
      ensures View(c) == [] && !c.stagedWriteDirty && volume[path] != [] && !Valid(c)
    {
      var status;
      status, c := OpenContext(path);
      status := OverwriteFile(c);
      status := OverwriteFile(c);
    }

    // Flushing and closing

    method DiscardStagedWrite(c: FileContext)
      requires Stored(c)
      modifies c, c.stagedWriteFile
      ensures Stored(c) && View(c) == volume[c.path] && c.sizeBytes == old(c.sizeBytes)
      ensures !c.stagedWriteActive && !c.stagedWriteDirty && !c.stagedWriteFileBacked && c.stagedWriteData == []
      ensures c.stagedWriteFile == null && (old(c.stagedWriteFile) != null ==> old(c.stagedWriteFile).removed)
      ensures c.deletePending == old(c.deletePending)
    {
      if c.stagedWriteFileBacked {
        c.stagedWriteFile.removed := true;
      }
      c.stagedWriteFile := null;
      c.stagedWriteFileBacked := false;
      c.stagedWriteData := [];
      c.stagedWriteActive := false;
      c.stagedWriteDirty := false;
    }

    /** A flush never changes what the handle reads, and the worker's own limit on a mutation never stops
        it. A successful one commits exactly that and empties a dirty stage; one that fails keeps the stage,
        whether or not its commit was written; one that finds a delete pending changes nothing. */
    method FlushFile(c: FileContext, env: Env) returns (status: Status)
      requires Valid(c)
      modifies this`volume, this`readerOpen, c, c.stagedWriteFile
      ensures Valid(c) && View(c) == old(View(c)) && c.deletePending == old(c.deletePending)
      ensures c.stagedWriteFile == old(c.stagedWriteFile) || c.stagedWriteFile == null
      ensures status == if !old(c.stagedWriteDirty) || (!readOnly && c.deletePending) then Success
                        else if readOnly then MediaWriteProtected
                        else env.commit.answer
      ensures volume == if old(c.stagedWriteDirty) && !readOnly && !c.deletePending && env.commit.written then
                          old(volume)[c.path := View(c)] else old(volume)
      ensures status == Success && !c.deletePending ==> volume[c.path] == View(c) && !c.stagedWriteDirty
      ensures status == Success && !c.deletePending && old(c.stagedWriteDirty) ==>
                && !c.stagedWriteActive && c.stagedWriteFile == null
                && (old(c.stagedWriteFile) != null ==> old(c.stagedWriteFile).removed)
      ensures status != Success || c.deletePending || !old(c.stagedWriteDirty) ==>
                && c.stagedWriteDirty == old(c.stagedWriteDirty) && c.stagedWriteActive == old(c.stagedWriteActive)
                && c.stagedWriteFile == old(c.stagedWriteFile)
    {
      if !c.stagedWriteDirty {
        return Success;
      }
      if readOnly {
        return MediaWriteProtected;
      }
      if c.deletePending {
        return Success;
      }
      if c.stagedWriteFileBacked {
        status := CommitFileWriteFromPath(c, c.stagedWriteFile, c.sizeBytes, env);
      } else {
        status := CommitFileWrite(c, c.stagedWriteData, env);
      }
      if status == Success {
        DiscardStagedWrite(c);
      }
    }

    /** Deleting drops the stage before the volume is asked, so a refused delete loses the staged
        bytes: the committed file is what is left. */
    method DeleteFile(c: FileContext, env: Env) returns (status: Status)
      requires Valid(c)
      modifies this`volume, this`readerOpen, c, c.stagedWriteFile
      ensures status == if readOnly then MediaWriteProtected else env.commit.answer
      ensures volume == if !readOnly && env.commit.written then old(volume) - {c.path} else old(volume)
      ensures !readOnly ==> !c.stagedWriteActive && !c.stagedWriteDirty && c.stagedWriteFile == null
      ensures !readOnly && old(c.stagedWriteFile) != null ==> old(c.stagedWriteFile).removed
      ensures !readOnly && !env.commit.written ==> Stored(c) && View(c) == old(volume)[c.path]
      ensures readOnly ==> Valid(c) && View(c) == old(View(c))
    {
      if readOnly {
        return MediaWriteProtected;
      }
      DiscardStagedWrite(c);
      if env.commit.written {
        volume := volume - {c.path};
      }
      readerOpen := env.commit.readerOpen;
      return env.commit.answer;
    }

    /** The handle's last operation. Without a delete it is a flush; with one nothing staged is ever
        committed. */
    method Cleanup(c: FileContext, delete: bool, env: Env)
      requires Valid(c)
      modifies this`volume, this`readerOpen, c, c.stagedWriteFile
      ensures delete ==> volume == if readOnly || !env.commit.written then old(volume) else old(volume) - {c.path}
      ensures !delete ==>
                volume == if old(c.stagedWriteDirty && !c.deletePending) && !readOnly && env.commit.written then
                  old(volume)[c.path := old(View(c))] else old(volume)
      ensures !readOnly && (delete || (env.commit.answer == Success && old(c.stagedWriteDirty && !c.deletePending))) ==>
                old(c.stagedWriteFile) != null ==> old(c.stagedWriteFile).removed
    {
      if delete {
        c.deletePending := true;
        var _ := DeleteFile(c, env);
      } else {
        var _ := FlushFile(c, env);
      }
    }

    function MountOf(): Mount {
      Mount(readOnly, rawTarget, maxFileReadBytes)
    }

    function PlainOf(c: FileContext): Plain
      requires Stored(c)
      reads this, c, c.stagedWriteFile
    {
      Plain(View(c), volume[c.path])
    }

    /** One callback refines one step of the plain file. The handle can be lost only as `Loses` says. */
    method Dispatch(c: FileContext, request: Request) returns (response: Response)
      requires Valid(c) && !c.deletePending
      requires request.Write? ==> |request.buffer| <= UINT32_MAX
      modifies this`volume, this`readerOpen, c, c.stagedWriteFile
      ensures Stored(c) && !c.deletePending
      ensures PlainStep(MountOf(), old(PlainOf(c)), request, response, PlainOf(c))
      ensures Valid(c) || Loses(old(PlainOf(c)), request, response, PlainOf(c))
      ensures volume == old(volume)[c.path := PlainOf(c).saved]
      ensures c.stagedWriteFile == old(c.stagedWriteFile) || c.stagedWriteFile == null || fresh(c.stagedWriteFile)
    {
      hide PlainWrite, PlainResize, ZeroFrom;
      var status, bytes := Success, [];
      match request {
        case Read(offset, length, env) =>
          status, bytes := ReadFile(c, offset, length, env);
        case Write(buffer, offset, writeToEndOfFile, env) =>
          var transferred;
          status, transferred := WriteFile(c, buffer, offset, writeToEndOfFile, env);
        case SetSize(size, setAllocationSize, env) =>
          status := SetFileSize(c, size, setAllocationSize, env);
        case Overwrite =>
          status := OverwriteFile(c);
        case Flush(env) =>
          status := FlushFile(c, env);
      }
      return Response(status, bytes);
    }

    /** Opening or creating. */
    method Begin(path: string, create: bool, env: Env) returns (status: Status, c: FileContext?)
      requires readerOpen && (path in volume ==> |volume[path]| <= UINT64_MAX)
      modifies this`volume, this`readerOpen
      ensures status == Success <==> c != null
      ensures c == null ==>
                || volume == old(volume)
                || (create && env.commit.written && env.commit.answer != Success && volume == old(volume)[path := []])
      ensures c != null ==>
                && fresh(c) && c.path == path && Valid(c) && !c.deletePending && c.stagedWriteFile == null
                && (create || path in old(volume)) && volume[path] == View(c)
                && View(c) == (if create then [] else old(volume)[path]) && volume == old(volume)[path := View(c)]
    {
      if create {
        status, c := CreateNode(path, env);
      } else {
        status, c := OpenContext(path);
      }
    }

    /** A run of callbacks on one handle, which ends early only when the handle is lost. */
    method Callbacks(c: FileContext, requests: seq<Request>) returns (responses: seq<Response>, ghost trace: seq<Plain>)
      requires Valid(c) && !c.deletePending
      requires forall request :: request in requests && request.Write? ==> |request.buffer| <= UINT32_MAX
      modifies this`volume, this`readerOpen, c, c.stagedWriteFile
      ensures Stored(c) && !c.deletePending && |responses| <= |requests|
      ensures PlainRun(MountOf(), trace, requests[..|responses|], responses)
      ensures trace[0] == old(PlainOf(c)) && trace[|responses|] == PlainOf(c)
      ensures volume == old(volume)[c.path := PlainOf(c).saved]
      ensures |responses| < |requests| ==> !Valid(c)
      ensures !Valid(c) ==>
                var n := |responses|;
                n > 0 && Loses(trace[n - 1], requests[n - 1], responses[n - 1], trace[n])
    {
      hide PlainStep, Loses, View;
      responses, trace := [], [PlainOf(c)];
      var k := 0;
      while k < |requests| && Valid(c)
        invariant k <= |requests| && |responses| == k && |trace| == k + 1
        invariant Stored(c) && !c.deletePending
        invariant c.stagedWriteFile == old(c.stagedWriteFile) || c.stagedWriteFile == null || fresh(c.stagedWriteFile)
        invariant trace[0] == old(PlainOf(c)) && trace[k] == PlainOf(c)
        invariant forall i {:trigger requests[i]} :: 0 <= i < k ==>
                    PlainStep(MountOf(), trace[i], requests[i], responses[i], trace[i + 1])
        invariant !Valid(c) ==> k > 0 && Loses(trace[k - 1], requests[k - 1], responses[k - 1], trace[k])
        invariant volume == old(volume)[c.path := PlainOf(c).saved]
      {
        var response := Dispatch(c, requests[k]);
        responses := responses + [response];
        trace := trace + [PlainOf(c)];
        k := k + 1;
      }
    }

    /** A handle's life from opening or creating the file to just before its cleanup. Whatever the calls
        and the world's answers, the responses are those of a plain file, and no other file of the volume
        changes. The run ends early only when a call, in one of the two ways that `Loses` names, has
        left a handle that no longer agrees with its file. */
    method Session(path: string, create: bool, env: Env, requests: seq<Request>)
      returns (status: Status, c: FileContext?, responses: seq<Response>, ghost trace: seq<Plain>)
      requires readerOpen && (path in volume ==> |volume[path]| <= UINT64_MAX)
      requires forall request :: request in requests && request.Write? ==> |request.buffer| <= UINT32_MAX
      modifies this`volume, this`readerOpen
      ensures status == Success <==> c != null
      ensures c == null ==>
                && responses == []
                && (|| volume == old(volume)
                    || (create && env.commit.written && env.commit.answer != Success && volume == old(volume)[path := []]))
      ensures c != null ==> fresh(c) && c.path == path && Stored(c) && !c.deletePending
      ensures c != null ==> create || path in old(volume)
      ensures c != null ==>
                var n := |responses|;
                && n <= |requests| && PlainRun(MountOf(), trace, requests[..n], responses)
                && trace[0] == (if create then Plain([], []) else Plain(old(volume)[path], old(volume)[path]))
                && trace[n] == PlainOf(c) && volume == old(volume)[path := trace[n].saved]
                && (n < |requests| ==> !Valid(c))
                && (!Valid(c) ==> n > 0)
      ensures c != null && !Valid(c) ==>
                var n := |responses|;
                var before, after := trace[n - 1], trace[n];
                match requests[n - 1]
                case Overwrite => before.view == [] && before.saved != []
                case Write(_, _, _, env) =>
                  && responses[n - 1].status != Success && env.commit.answer != Success
                  && (!env.commit.readerOpen || |before.view| != |after.view|)
                case SetSize(_, _, env) =>
                  && responses[n - 1].status != Success && env.commit.answer != Success
                  && (!env.commit.readerOpen || |before.view| != |after.view|)
                case _ => false
    {
      hide PlainRun, View;
      responses, trace := [], [];
      status, c := Begin(path, create, env);
      if c != null {
        responses, trace := Callbacks(c, requests);
      }
    }
  }

  /** How a handle stops agreeing with its file: it overwrites an empty content beside a committed one,
      or a commit without a stage is not answered with success. */
  predicate Loses(before: Plain, request: Request, response: Response, after: Plain) {
    match request
    case Overwrite => response.status == Success && before.view == [] && before.saved != []
    case Write(_, _, _, env) => response.status != Success && !ApfsMountState.Survives(env.commit, |before.view|, |after.view|)
    case SetSize(_, _, env) => response.status != Success && !ApfsMountState.Survives(env.commit, |before.view|, |after.view|)
    case _ => false
  }
}
