/** Symbolic links as Windows reparse buffers (src/worker/apfs_winfs_worker.cpp; layout in section
    2.1.2.4 of [MS-FSCC]).

    Text is UTF-16. All fields and names of the buffer lie on 16-bit boundaries, so a buffer is modelled
    as its 16-bit words, with its size in bytes beside them. */
module ReparsePoints {
  import opened Common

  type Word = UInt16
  type Text = seq<Word>

  datatype Status =
    | Success
    | DataInvalid
    | TagNotHandled
    | NameTooLong

  const SLASH: Word := 0x2f
  const BACKSLASH: Word := 0x5c
  const QUESTION: Word := 0x3f

  /** The prefix of a name in the object manager: \??\ */
  const NT_PREFIX: Text := [BACKSLASH, QUESTION, QUESTION, BACKSLASH]

  // Field positions, in words

  const FIXED := 10
  const TAG_LOW: Word := 0x000c
  const TAG_HIGH: Word := 0xa000
  /** Bytes before what the data length counts, and before the path buffer. */
  const HEADER_BYTES := 8
  const FIXED_BYTES := 20

  predicate StartsWith(s: Text, t: Text) {
    |t| <= |s| && s[..|t|] == t
  }

  function NativeWord(c: Word): Word {
    if c == SLASH then BACKSLASH else c
  }

  function ForeignWord(c: Word): Word {
    if c == BACKSLASH then SLASH else c
  }

  /** `QDir::toNativeSeparators`. */
  function Native(s: Text): (r: Text)
    ensures |r| == |s| && forall i :: 0 <= i < |s| ==> r[i] == if s[i] == 0x2f then 0x5c else s[i]
  {
    seq(|s|, i requires 0 <= i < |s| => NativeWord(s[i]))
  }

  function Foreign(s: Text): (r: Text)
    ensures |r| == |s| && forall i :: 0 <= i < |s| ==> r[i] == if s[i] == 0x5c then 0x2f else s[i]
  {
    seq(|s|, i requires 0 <= i < |s| => ForeignWord(s[i]))
  }

  function Folded(fold: Word -> Word, s: Text): (r: Text)
    ensures |r| == |s|
  {
    seq(|s|, i requires 0 <= i < |s| => fold(s[i]))
  }

  function Trimmed(mount: Text): (r: Text)
    ensures r == [] || r[|r| - 1] != 0x5c
    ensures |r| <= |mount| && r == mount[..|r|] && forall i :: |r| <= i < |mount| ==> mount[i] == 0x5c
  {
    if mount != [] && mount[|mount| - 1] == BACKSLASH then Trimmed(mount[..|mount| - 1]) else mount
  }

  method TrimMount(mountPoint: Text) returns (mount: Text)
    ensures mount == Trimmed(mountPoint)
  {
    mount := mountPoint;
    while mount != [] && mount[|mount| - 1] == BACKSLASH
      invariant Trimmed(mount) == Trimmed(mountPoint)
    {
      mount := mount[..|mount| - 1];
    }
  }

  // The buffer

  /** The words before the names: the tag, the data length, a reserved word, offset and length of the
      substitute and of the print name in bytes, and the flags. */
  function Header(substituteBytes: Word, printBytes: Word, relative: bool): (header: seq<Word>)
    requires substituteBytes + printBytes + FIXED_BYTES <= UINT16_MAX
    ensures |header| == FIXED
  {
    [TAG_LOW, TAG_HIGH, FIXED_BYTES - HEADER_BYTES + substituteBytes + printBytes, 0,
     0, substituteBytes, substituteBytes, printBytes, if relative then 1 else 0, 0]
  }

  function Buffer(substitute: Text, printName: Text, relative: bool): (words: seq<Word>)
    requires 2 * (|substitute| + |printName|) + FIXED_BYTES <= UINT16_MAX
    ensures |words| == FIXED + |substitute| + |printName|
  {
    Header(2 * |substitute|, 2 * |printName|, relative) + (substitute + printName)
  }

  predicate Relative(target: Text) {
    target == [] || target[0] != SLASH
  }

  function PrintName(mountPoint: Text, target: Text): Text {
    if Relative(target) then Native(target) else Trimmed(mountPoint) + Native(target)
  }

  function SubstituteName(mountPoint: Text, target: Text): Text {
    if Relative(target) then Native(target) else NT_PREFIX + PrintName(mountPoint, target)
  }

  function PathBytes(mountPoint: Text, target: Text): nat {
    2 * (|SubstituteName(mountPoint, target)| + |PrintName(mountPoint, target)|)
  }

  /** What building answers: it depends on the mount only for an absolute target. */
  function BuildVerdict(mountPoint: Text, target: Text): Status {
    if target == [] then DataInvalid
    else if !Relative(target) && mountPoint == [] then TagNotHandled
    else if PathBytes(mountPoint, target) + FIXED_BYTES > UINT16_MAX then NameTooLong
    else Success
  }

  function Built(mountPoint: Text, target: Text): seq<Word>
    requires BuildVerdict(mountPoint, target) == Success
  {
    Buffer(SubstituteName(mountPoint, target), PrintName(mountPoint, target), Relative(target))
  }

  method Names(mountPoint: Text, target: Text) returns (substituteName: Text, printName: Text)
    ensures substituteName == SubstituteName(mountPoint, target) && printName == PrintName(mountPoint, target)
  {
    hide Native, Trimmed;
    if Relative(target) {
      printName := Native(target);
      return printName, printName;
    }
    var mount := TrimMount(mountPoint);
    printName := mount + Native(target);
    substituteName := NT_PREFIX + printName;
  }

  /** Fills a new buffer in place, field by field. */
  method FillBuffer(substituteName: Text, printName: Text, relative: bool) returns (bytes: array<Word>)
    requires 2 * (|substituteName| + |printName|) + FIXED_BYTES <= UINT16_MAX
    ensures fresh(bytes) && bytes[..] == Buffer(substituteName, printName, relative)
  {
    hide Buffer, Header;
    var n := |substituteName|;
    bytes := new Word[FIXED + n + |printName|](_ => 0);
    FillHeader(bytes, 2 * n, 2 * |printName|, relative);
    ghost var header := bytes[..FIXED];
    CopyWords(bytes, FIXED, substituteName);
    CopyWords(bytes, FIXED + n, printName);
    assert bytes[..FIXED] == bytes[..FIXED + n][..FIXED] == header;
    assert bytes[FIXED..FIXED + n] == bytes[..FIXED + n][FIXED..] == substituteName;
    assert bytes[FIXED + n..] == printName;
    BufferParts(substituteName, printName, relative, bytes[..]);
  }

  method FillHeader(bytes: array<Word>, substituteBytes: Word, printBytes: Word, relative: bool)
    requires substituteBytes + printBytes + FIXED_BYTES <= UINT16_MAX
    requires bytes.Length >= FIXED && forall i :: 0 <= i < FIXED ==> bytes[i] == 0
    modifies bytes
    ensures bytes[..FIXED] == Header(substituteBytes, printBytes, relative)
  {
    bytes[0], bytes[1] := TAG_LOW, TAG_HIGH;
    bytes[2] := FIXED_BYTES + substituteBytes + printBytes - HEADER_BYTES;
    bytes[5] := substituteBytes;
    bytes[6], bytes[7] := bytes[5], printBytes;
    bytes[8] := if relative then 1 else 0;
  }

  lemma BufferParts(substituteName: Text, printName: Text, relative: bool, words: seq<Word>)
    requires 2 * (|substituteName| + |printName|) + FIXED_BYTES <= UINT16_MAX
    requires |words| == FIXED + |substituteName| + |printName|
    requires words[..FIXED] == Header(2 * |substituteName|, 2 * |printName|, relative)
    requires words[FIXED..FIXED + |substituteName|] == substituteName
    requires words[FIXED + |substituteName|..] == printName
    ensures words == Buffer(substituteName, printName, relative)
  {
    hide Header;
    assert words == words[..FIXED] + words[FIXED..FIXED + |substituteName|] + words[FIXED + |substituteName|..];
    Regroup(words[..FIXED], substituteName, printName);
  }

  /** The buffer of section 2.1.2.4 of [MS-FSCC], word by word: the tag, the length of what follows the first
      eight bytes, a reserved word, the offset and length of either name in bytes, the flags, the names. */
  ghost predicate LaidOut(words: seq<Word>, substituteName: Text, printName: Text, flags: Word) {
    && |words| == 10 + |substituteName| + |printName|
    && words[0] == 0x000c && words[1] == 0xa000 && words[2] == 2 * |words| - 8 && words[3] == 0
    && words[4] == 0 && words[5] == 2 * |substituteName|
    && words[6] == 2 * |substituteName| && words[7] == 2 * |printName|
    && words[8] == flags && words[9] == 0
    && words[10..10 + |substituteName|] == substituteName && words[10 + |substituteName|..] == printName
  }

  lemma BufferIsLaidOut(substituteName: Text, printName: Text, relative: bool)
    requires 2 * (|substituteName| + |printName|) + FIXED_BYTES <= UINT16_MAX
    ensures LaidOut(Buffer(substituteName, printName, relative), substituteName, printName, if relative then 1 else 0)
  {
    var words := Buffer(substituteName, printName, relative);
    var header := Header(2 * |substituteName|, 2 * |printName|, relative);
    assert words[..10] == header && words[10..] == substituteName + printName;
    assert words[10..10 + |substituteName|] == substituteName && words[10 + |substituteName|..] == printName;
    assert forall i :: 0 <= i < 10 ==> words[i] == header[i];
  }

  lemma BuiltIsLaidOut(mountPoint: Text, target: Text)
    requires BuildVerdict(mountPoint, target) == Success
    ensures var printName := if target[0] == 0x2f then Trimmed(mountPoint) + Native(target) else Native(target);
            var substituteName := if target[0] == 0x2f then [0x5c, 0x3f, 0x3f, 0x5c] + printName else printName;
            LaidOut(Built(mountPoint, target), substituteName, printName, if target[0] == 0x2f then 0 else 1)
  {
    hide Trimmed, Native, Buffer, LaidOut;
    BufferIsLaidOut(SubstituteName(mountPoint, target), PrintName(mountPoint, target), Relative(target));
  }

  lemma VerdictInNumbers(mountPoint: Text, target: Text)
    ensures BuildVerdict(mountPoint, target) ==
            if target == [] then DataInvalid
            else if target[0] == 0x2f && mountPoint == [] then TagNotHandled
            else if (if target[0] == 0x2f then 28 + 4 * (|Trimmed(mountPoint)| + |target|) else 20 + 4 * |target|) > 65535 then
              NameTooLong
            else Success
  {
    hide Trimmed, Native;
  }

  /** The reparse buffer of a link. */
  method BuildSymbolicLinkReparseData(mountPoint: Text, target: Text) returns (status: Status, bytes: array<Word>)
    ensures fresh(bytes)
    ensures status == BuildVerdict(mountPoint, target)
    ensures bytes[..] == if status == Success then Built(mountPoint, target) else []
    ensures status == if target == [] then DataInvalid
                      else if target[0] == 0x2f && mountPoint == [] then TagNotHandled
                      else if (if target[0] == 0x2f then 28 + 4 * (|Trimmed(mountPoint)| + |target|) else 20 + 4 * |target|) > 65535 then
              NameTooLong
                      else Success
    ensures status == Success ==>
              var printName := if target[0] == 0x2f then Trimmed(mountPoint) + Native(target) else Native(target);
              var substituteName := if target[0] == 0x2f then [0x5c, 0x3f, 0x3f, 0x5c] + printName else printName;
              && LaidOut(bytes[..], substituteName, printName, if target[0] == 0x2f then 0 else 1)
              && bytes.Length == 10 + |substituteName| + |printName|
              && bytes[0] == 0x000c && bytes[1] == 0xa000 && bytes[2] == 2 * bytes.Length - 8 && bytes[3] == bytes[4] == 0
              && bytes[5] == bytes[6] == 2 * |substituteName| && bytes[7] == 2 * |printName|
              && bytes[8] == (if target[0] == 0x2f then 0 else 1) && bytes[9] == 0
              && bytes[10..10 + |substituteName|] == substituteName && bytes[10 + |substituteName|..] == printName
  {
    hide Buffer, PrintName, SubstituteName, Native, Trimmed;
    if BuildVerdict(mountPoint, target) == Success {
      BuiltIsLaidOut(mountPoint, target);
    }
    VerdictInNumbers(mountPoint, target);
    bytes := new Word[0];
    if target == [] {
      return DataInvalid, bytes;
    }
    var relative := target[0] != SLASH;
    if !relative && mountPoint == [] {
      return TagNotHandled, bytes;
    }
    var substituteName, printName := Names(mountPoint, target);
    var pathBytes := (|substituteName| + |printName|) * 2;
    if pathBytes > UINT16_MAX || FIXED_BYTES + pathBytes > UINT16_MAX {
      return NameTooLong, bytes;
    }
    bytes := FillBuffer(substituteName, printName, relative);
    status := Success;
  }

  method CopyWords(a: array<Word>, at: nat, words: seq<Word>)
    requires at + |words| <= a.Length
    modifies a
    ensures a[..at] == old(a[..at]) && a[at..at + |words|] == words && a[at + |words|..] == old(a[at + |words|..])
  {
    var i := 0;
    while i < |words|
      invariant i <= |words|
      invariant a[..at] == old(a[..at]) && a[at..at + i] == words[..i] && a[at + i..] == old(a[at + i..])
    {
      a[at + i] := words[i];
      i := i + 1;
    }
  }

  // Parsing

  /** The target that an absolute name stands for below the mount. */
  function BelowMount(fold: Word -> Word, mountPoint: Text, name: Text): Option<Text> {
    var plain := if StartsWith(name, NT_PREFIX) then name[4..] else name;
    var mount := Trimmed(mountPoint);
    if mount == [] || |plain| < |mount| || Folded(fold, plain[..|mount|]) != Folded(fold, mount) then None
    else
      var rest := plain[|mount|..];
      Some(if rest == [] || (rest[0] != BACKSLASH && rest[0] != SLASH) then [BACKSLASH] + rest else rest)
  }

  /** An absolute name is accepted exactly when, past the object manager's prefix, it starts with the trimmed
      mount in any case, which must not be empty; the target is the rest, behind a separator. */
  lemma BelowMountIff(fold: Word -> Word, mountPoint: Text, name: Text)
    ensures var mount := Trimmed(mountPoint);
            var plain := if |name| >= 4 && name[..4] == [0x5c, 0x3f, 0x3f, 0x5c] then name[4..] else name;
            if mount != [] && |plain| >= |mount| && (forall i :: 0 <= i < |mount| ==> fold(plain[i]) == fold(mount[i])) then
              BelowMount(fold, mountPoint, name) ==
              Some(if |plain| > |mount| && (plain[|mount|] == 0x2f || plain[|mount|] == 0x5c) then plain[|mount|..]
                   else [0x5c] + plain[|mount|..])
            else BelowMount(fold, mountPoint, name) == None
  {
    hide Trimmed;
    var mount := Trimmed(mountPoint);
    var plain := if StartsWith(name, NT_PREFIX) then name[4..] else name;
    if mount != [] && |plain| >= |mount| {
      var x, y := Folded(fold, plain[..|mount|]), Folded(fold, mount);
      assert forall i :: 0 <= i < |mount| ==> x[i] == fold(plain[i]) && y[i] == fold(mount[i]);
    }
    assert |plain| > |mount| ==> plain[|mount|..][0] == plain[|mount|];
  }

  /** A target is accepted exactly when it is neither empty nor has a zero in it. */
  lemma TargetIff(parsed: Text)
    ensures TargetOf(parsed) == if parsed == [] || 0 in parsed then (DataInvalid, []) else (Success, Foreign(parsed))
  {
    hide Foreign;
    NativeThenForeign(parsed);
  }

  function TargetOf(parsed: Text): (Status, Text) {
    var target := Foreign(parsed);
    if target == [] || 0 in target then (DataInvalid, []) else (Success, target)
  }

  function NameTarget(fold: Word -> Word, mountPoint: Text, name: Text, relative: bool): (Status, Text) {
    if relative then TargetOf(name)
    else
      match BelowMount(fold, mountPoint, name)
      case None => (TagNotHandled, [])
      case Some(parsed) => TargetOf(parsed)
  }

  /** Parsing a buffer of `size` bytes that starts with these words. */
  function Parsed(fold: Word -> Word, mountPoint: Text, words: seq<Word>, size: nat): (Status, Text)
    requires |words| == size / 2
  {
    if size < FIXED_BYTES then (DataInvalid, [])
    else if words[0] != TAG_LOW || words[1] != TAG_HIGH || words[2] + HEADER_BYTES > size then (TagNotHandled, [])
    else
      var available := size - FIXED_BYTES;
      var usePrint := words[7] != 0;
      var offset := if usePrint then words[6] else words[4];
      var length := if usePrint then words[7] else words[5];
      if offset % 2 != 0 || length % 2 != 0 || offset > available || length > available - offset then (DataInvalid, [])
      else NameTarget(fold, mountPoint, words[FIXED + offset / 2..FIXED + offset / 2 + length / 2], words[8] % 2 == 1)
  }

  method ParseSymbolicLinkReparseData(fold: Word -> Word, mountPoint: Text, words: seq<Word>, size: nat)
    returns (status: Status, target: Text)
    requires |words| == size / 2
    ensures (status, target) == Parsed(fold, mountPoint, words, size)
    ensures size < 20 ==> status == DataInvalid
    ensures size >= 20 && (words[0] != 0x000c || words[1] != 0xa000 || words[2] + 8 > size) ==> status == TagNotHandled
    ensures size >= 20 && words[0] == 0x000c && words[1] == 0xa000 && words[2] + 8 <= size ==>
              var offset, length := if words[7] != 0 then words[6] else words[4], if words[7] != 0 then words[7] else words[5];
              if offset % 2 != 0 || length % 2 != 0 || 20 + offset + length > size then status == DataInvalid
              else
                var name := words[10 + offset / 2..10 + offset / 2 + length / 2];
                (status, target) == NameTarget(fold, mountPoint, name, words[8] % 2 == 1)
    ensures status == Success ==> target != [] && BACKSLASH !in target && 0 !in target
  {
    hide BelowMount, StartsWith;
    if size < FIXED_BYTES {
      return DataInvalid, [];
    }
    if words[0] != TAG_LOW || words[1] != TAG_HIGH || words[2] + HEADER_BYTES > size {
      return TagNotHandled, [];
    }
    var available := size - FIXED_BYTES;
    var offset, length := words[4], words[5];
    if words[7] != 0 {
      offset, length := words[6], words[7];
    }
    if offset % 2 != 0 || length % 2 != 0 || offset > available || length > available - offset {
      return DataInvalid, [];
    }
    var parsed := words[FIXED + offset / 2..FIXED + offset / 2 + length / 2];
    if words[8] % 2 == 0 {
      var below := StripMount(fold, mountPoint, parsed);
      if below == None {
        return TagNotHandled, [];
      }
      parsed := below.value;
    }
    parsed := Slashed(parsed);
    if parsed == [] || 0 in parsed {
      return DataInvalid, [];
    }
    return Success, parsed;
  }

  method StripMount(fold: Word -> Word, mountPoint: Text, name: Text) returns (below: Option<Text>)
    ensures below == BelowMount(fold, mountPoint, name)
  {
    hide Folded, Trimmed;
    var parsed := name;
    if StartsWith(parsed, NT_PREFIX) {
      parsed := parsed[4..];
    }
    var mount := TrimMount(mountPoint);
    if mount == [] || |parsed| < |mount| || Folded(fold, parsed[..|mount|]) != Folded(fold, mount) {
      return None;
    }
    parsed := parsed[|mount|..];
    if parsed == [] || (parsed[0] != BACKSLASH && parsed[0] != SLASH) {
      parsed := [BACKSLASH] + parsed;
    }
    return Some(parsed);
  }

  /** `QString::replace`, every backslash by a slash. */
  method Slashed(text: Text) returns (slashed: Text)
    ensures slashed == Foreign(text)
  {
    slashed := text;
    var i := 0;
    while i < |slashed|
      invariant i <= |slashed| == |text|
      invariant forall k :: 0 <= k < i ==> slashed[k] == ForeignWord(text[k])
      invariant forall k :: i <= k < |text| ==> slashed[k] == text[k]
    {
      if slashed[i] == BACKSLASH {
        slashed := slashed[i := SLASH];
      }
      i := i + 1;
    }
  }

  // Round trips

  predicate Plain(target: Text) {
    BACKSLASH !in target && 0 !in target
  }

  lemma NativeThenForeign(s: Text)
    ensures Foreign(Native(s)) == Foreign(s)
    ensures Foreign(s) == s <==> BACKSLASH !in s
    ensures 0 in Foreign(s) <==> 0 in s
  {
    assert forall i :: 0 <= i < |s| ==> Foreign(s)[i] == ForeignWord(s[i]);
    if 0 in s {
      var i :| 0 <= i < |s| && s[i] == 0;
      assert Foreign(s)[i] == 0;
    }
    if BACKSLASH in s {
      var i :| 0 <= i < |s| && s[i] == BACKSLASH;
      assert Foreign(s)[i] != s[i];
    }
  }

  lemma TargetOfNative(target: Text)
    requires target != []
    ensures TargetOf(Native(target)) == (Success, target) <==> Plain(target)
  {
    hide Foreign, Native;
    NativeThenForeign(target);
    NativeThenForeign(Native(target));
  }

  /** Parsing a buffer that holds these two names: the print name unless it is empty. */
  lemma ParsedBuffer(fold: Word -> Word, mountPoint: Text, substitute: Text, printName: Text, relative: bool)
    requires 2 * (|substitute| + |printName|) + FIXED_BYTES <= UINT16_MAX && printName != []
    ensures var words := Buffer(substitute, printName, relative);
            && Parsed(fold, mountPoint, words, 2 * |words|) == NameTarget(fold, mountPoint, printName, relative)
            && Parsed(fold, mountPoint, words[7 := 0], 2 * |words|) == NameTarget(fold, mountPoint, substitute, relative)
  {
    hide NameTarget;
    var words := Buffer(substitute, printName, relative);
    var n := |substitute|;
    assert words[FIXED..] == substitute + printName;
    assert words[FIXED + n..FIXED + n + |printName|] == printName;
    assert words[7 := 0][FIXED..FIXED + n] == substitute;
  }

  /** A mount below which names can be recognised: not empty, and not taken for the prefix of an
      object-manager name once a path follows it. */
  predicate Usable(mountPoint: Text) {
    Trimmed(mountPoint) != [] && !StartsWith(Trimmed(mountPoint) + [BACKSLASH], NT_PREFIX)
  }

  /** A trimmed mount does not end with a backslash, so the prefix ends within it or right after it. */
  lemma PrefixOfMount(mount: Text, name: Text)
    requires mount != [] && mount[|mount| - 1] != BACKSLASH && name != [] && name[0] == BACKSLASH
    ensures StartsWith(mount + name, NT_PREFIX) <==> StartsWith(mount + [BACKSLASH], NT_PREFIX)
  {
    var long, short := mount + name, mount + [BACKSLASH];
    assert forall i :: 0 <= i < |short| ==> long[i] == short[i];
    assert NT_PREFIX[0] == BACKSLASH && NT_PREFIX[1] == NT_PREFIX[2] == QUESTION && NT_PREFIX[3] == BACKSLASH;
    if StartsWith(long, NT_PREFIX) {
      assert forall i :: 0 <= i < 4 ==> long[..4][i] == long[i] == NT_PREFIX[i];
      assert |mount| >= 3;
      assert short[..4] == NT_PREFIX;
    }
    if StartsWith(short, NT_PREFIX) {
      assert forall i :: 0 <= i < 4 ==> short[..4][i] == short[i] == NT_PREFIX[i];
      assert long[..4] == NT_PREFIX;
    }
  }

  /** What is below the mount in the two names of an absolute target. */
  lemma BelowOwnMount(fold: Word -> Word, mountPoint: Text, name: Text)
    requires Trimmed(mountPoint) != [] && name != [] && name[0] == BACKSLASH
    ensures BelowMount(fold, mountPoint, NT_PREFIX + (Trimmed(mountPoint) + name)) == Some(name)
    ensures Usable(mountPoint) ==> BelowMount(fold, mountPoint, Trimmed(mountPoint) + name) == Some(name)
    ensures !Usable(mountPoint) ==>
              match BelowMount(fold, mountPoint, Trimmed(mountPoint) + name) case None => true case Some(r) => |r| < |name|
  {
    hide Folded, Trimmed;
    var mount := Trimmed(mountPoint);
    var full := mount + name;
    assert full[..|mount|] == mount && full[|mount|..] == name;
    assert (NT_PREFIX + full)[..4] == NT_PREFIX && (NT_PREFIX + full)[4..] == full;
    PrefixOfMount(mount, name);
  }

  /** Reading back a link that was written gives its target, from the print name exactly when the
      target has no backslash and no NUL and, if it is absolute, the mount is usable. */
  lemma RoundTrip(fold: Word -> Word, mountPoint: Text, target: Text)
    requires BuildVerdict(mountPoint, target) == Success
    ensures var words := Built(mountPoint, target);
            Parsed(fold, mountPoint, words, 2 * |words|) == (Success, target) <==>
            Plain(target) && (Relative(target) || Usable(mountPoint))
  {
    hide Parsed, Buffer, Trimmed, BelowMount, Native, TargetOf, Plain, StartsWith;
    var printName := PrintName(mountPoint, target);
    ParsedBuffer(fold, mountPoint, SubstituteName(mountPoint, target), printName, Relative(target));
    TargetOfNative(target);
    if !Relative(target) {
      NativeOfAbsolute(target);
      if Trimmed(mountPoint) == [] {
        NoMount(fold, mountPoint, printName);
      } else {
        BelowOwnMount(fold, mountPoint, Native(target));
        match BelowMount(fold, mountPoint, printName)
        case None =>
        case Some(below) => TargetLength(below);
      }
    }
  }

  lemma NativeOfAbsolute(target: Text)
    requires !Relative(target)
    ensures Native(target) != [] && Native(target)[0] == BACKSLASH
  {
  }

  lemma NoMount(fold: Word -> Word, mountPoint: Text, name: Text)
    requires Trimmed(mountPoint) == []
    ensures BelowMount(fold, mountPoint, name) == None
  {
  }

  lemma TargetLength(parsed: Text)
    ensures TargetOf(parsed).0 == Success ==> |TargetOf(parsed).1| == |parsed|
  {
  }

  /** The substitute name, which readers use when the print name is empty, gives the same target, and
      for every mount that is not empty. */
  lemma SubstituteRoundTrip(fold: Word -> Word, mountPoint: Text, target: Text)
    requires BuildVerdict(mountPoint, target) == Success
    ensures var words := Built(mountPoint, target);
            Parsed(fold, mountPoint, words[7 := 0], 2 * |words|) == (Success, target) <==>
            Plain(target) && (Relative(target) || Trimmed(mountPoint) != [])
  {
    hide Parsed, Buffer, Trimmed, BelowMount, Native, TargetOf, Plain, StartsWith, Usable;
    var substitute := SubstituteName(mountPoint, target);
    ParsedBuffer(fold, mountPoint, substitute, PrintName(mountPoint, target), Relative(target));
    TargetOfNative(target);
    if !Relative(target) {
      NativeOfAbsolute(target);
      if Trimmed(mountPoint) == [] {
        NoMount(fold, mountPoint, substitute);
      } else {
        BelowOwnMount(fold, mountPoint, Native(target));
      }
    }
  }

  function WithoutPrefix(name: Text): Text {
    if StartsWith(name, NT_PREFIX) then name[4..] else name
  }

  /** The name is the mount itself, or a separator follows the mount in it. */
  predicate LiesBelow(mountPoint: Text, plain: Text) {
    var n := |Trimmed(mountPoint)|;
    |plain| == n || (|plain| > n && (plain[n] == BACKSLASH || plain[n] == SLASH))
  }

  /** The target that an absolute name is given is what follows the mount in it, behind a slash if there
      is none. The link then leads to that name again, in whichever way it writes the mount, if and only
      if the name lies below the mount; the mount is compared as a mere prefix. */
  lemma AbsoluteTarget(fold: Word -> Word, mountPoint: Text, name: Text)
    requires NameTarget(fold, mountPoint, name, false).0 == Success
    ensures var plain, n := WithoutPrefix(name), |Trimmed(mountPoint)|;
            var target := NameTarget(fold, mountPoint, name, false).1;
            && n <= |plain| && Folded(fold, plain[..n]) == Folded(fold, Trimmed(mountPoint))
            && !Relative(target)
            && target == (if LiesBelow(mountPoint, plain) && |plain| > n then Foreign(plain[n..]) else [SLASH] + Foreign(plain[n..]))
            && (Native(target) == Native(plain[n..]) || (|plain| == n && target == [SLASH]) <==> LiesBelow(mountPoint, plain))
            && PrintName(mountPoint, target) == Trimmed(mountPoint) + Native(target)
  {
    hide Trimmed, Folded, StartsWith;
    var plain, n := WithoutPrefix(name), |Trimmed(mountPoint)|;
    var rest := plain[n..];
    var below := BelowMount(fold, mountPoint, name).value;
    var target := NameTarget(fold, mountPoint, name, false).1;
    assert target == Foreign(below);
    ForeignThenNative(below);
    if LiesBelow(mountPoint, plain) && |plain| > n {
      assert below == rest;
    } else {
      assert below == [BACKSLASH] + rest;
      assert Foreign(below) == [SLASH] + Foreign(rest);
      assert |Native(target)| == |Native(rest)| + 1;
    }
  }

  lemma ForeignThenNative(s: Text)
    ensures Native(Foreign(s)) == Native(s)
  {
    assert forall i :: 0 <= i < |s| ==> NativeWord(ForeignWord(s[i])) == NativeWord(s[i]);
  }

  /** A name outside: below the mount `X:\m`, the name `X:\m2\f` is accepted and becomes `/2/f`. */
  lemma NeighbourIsAccepted(fold: Word -> Word)
    ensures var mount: Text, name: Text := [0x58, 0x3a, 0x5c, 0x6d], [0x58, 0x3a, 0x5c, 0x6d, 0x32, 0x5c, 0x66];
            && NameTarget(fold, mount, name, false) == (Success, [0x2f, 0x32, 0x2f, 0x66])
            && !LiesBelow(mount, name)
  {
    hide Folded;
    var mount: Text, name: Text := [0x58, 0x3a, 0x5c, 0x6d], [0x58, 0x3a, 0x5c, 0x6d, 0x32, 0x5c, 0x66];
    assert Trimmed(mount) == mount;
    assert name[..4] == mount && name[4..] == [0x32, 0x5c, 0x66];
    assert name[..4][1] != NT_PREFIX[1];
    assert !StartsWith(name, NT_PREFIX);
    assert [BACKSLASH] + name[4..] == [BACKSLASH, 0x32, 0x5c, 0x66];
    assert BelowMount(fold, mount, name) == Some([BACKSLASH, 0x32, 0x5c, 0x66]);
    assert Foreign([BACKSLASH, 0x32, 0x5c, 0x66]) == [0x2f, 0x32, 0x2f, 0x66];
  }
}
