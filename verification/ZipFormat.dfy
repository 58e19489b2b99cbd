/** The stored-only subset of the ZIP format of sections 4.3.7, 4.3.12 and 4.3.16 of PKWARE
    APPNOTE.TXT: the bytes of an archive and two independent readers. */
module ZipFormat {
  import opened Common
  import opened Crc32

  // Blocks of bytes, one after another

  /** Where each block starts, and where the last one ends. */
  function Sums(lengths: seq<nat>): (sums: seq<nat>)
    ensures |sums| == |lengths| + 1 && sums[0] == 0
    ensures forall k {:trigger lengths[k]} :: 0 <= k < |lengths| ==> sums[k + 1] == sums[k] + lengths[k]
  {
    if lengths == [] then [0]
    else
      var n := |lengths| - 1;
      var before := Sums(lengths[..n]);
      assert forall k :: 0 <= k < n ==> lengths[..n][k] == lengths[k];
      before + [before[n] + lengths[n]]
  }

  lemma {:induction false} SumsIncrease(lengths: seq<nat>, i: nat, j: nat)
    requires i <= j <= |lengths|
    ensures Sums(lengths)[i] <= Sums(lengths)[j]
    decreases j - i
  {
    if i < j {
      SumsIncrease(lengths, i, j - 1);
      assert lengths[j - 1] >= 0;
    }
  }

  function Join(blocks: seq<seq<Byte>>): seq<Byte> {
    if blocks == [] then []
    else
      var n := |blocks| - 1;
      Join(blocks[..n]) + blocks[n]
  }

  function Lengths(blocks: seq<seq<Byte>>): (lengths: seq<nat>)
    ensures |lengths| == |blocks|
    ensures forall k :: 0 <= k < |blocks| ==> lengths[k] == |blocks[k]|
  {
    seq(|blocks|, k requires 0 <= k < |blocks| => |blocks[k]|)
  }

  lemma {:induction false} JoinPrefix(blocks: seq<seq<Byte>>, k: nat)
    requires k <= |blocks|
    ensures |Join(blocks[..k])| == Sums(Lengths(blocks))[k]
    ensures k < |blocks| ==> Join(blocks[..k + 1]) == Join(blocks[..k]) + blocks[k]
  {
    if k != 0 {
      JoinPrefix(blocks, k - 1);
      assert Lengths(blocks)[k - 1] == |blocks[k - 1]|;
    }
    if k < |blocks| {
      assert blocks[..k + 1][..k] == blocks[..k];
    }
  }

  predicate At(bytes: seq<Byte>, at: nat, part: seq<Byte>) {
    at + |part| <= |bytes| && bytes[at..at + |part|] == part
  }

  lemma AtLast(before: seq<Byte>, part: seq<Byte>)
    ensures At(before + part, |before|, part)
  {
  }

  lemma AtSplit(bytes: seq<Byte>, at: nat, a: seq<Byte>, b: seq<Byte>)
    requires At(bytes, at, a + b)
    ensures At(bytes, at, a) && At(bytes, at + |a|, b)
  {
    assert bytes[at..at + |a + b|][..|a|] == a;
    assert bytes[at..at + |a + b|][|a|..] == b;
  }

  /** A part of a part. */
  lemma AtWithin(bytes: seq<Byte>, at: nat, whole: seq<Byte>, offset: nat, part: seq<Byte>)
    requires At(bytes, at, whole) && At(whole, offset, part)
    ensures At(bytes, at + offset, part)
  {
    forall i | 0 <= i < |part|
      ensures bytes[at + offset + i] == part[i]
    {
      assert whole[offset..offset + |part|][i] == whole[offset + i];
      assert bytes[at..at + |whole|][offset + i] == bytes[at + (offset + i)];
    }
  }

  /** Every block is where the lengths before it say. */
  lemma {:induction false} JoinAt(blocks: seq<seq<Byte>>, n: nat, k: nat)
    requires k < n <= |blocks|
    ensures At(Join(blocks[..n]), Sums(Lengths(blocks))[k], blocks[k])
    decreases n
  {
    JoinPrefix(blocks, n - 1);
    var before := Join(blocks[..n - 1]);
    if k == n - 1 {
      AtLast(before, blocks[k]);
    } else {
      JoinAt(blocks, n - 1, k);
      AtStart(before, blocks[n - 1]);
      AtWithin(before + blocks[n - 1], 0, before, Sums(Lengths(blocks))[k], blocks[k]);
    }
  }

  lemma AtStart(part: seq<Byte>, after: seq<Byte>)
    ensures At(part + after, 0, part)
  {
  }

  // Fixed-width little-endian fields

  datatype Field = U16(value: nat) | U32(value: nat)

  function Width(f: Field): nat {
    if f.U16? then 2 else 4
  }

  predicate FieldFits(f: Field) {
    f.value <= if f.U16? then UINT16_MAX else UINT32_MAX
  }

  /** Consecutive groups of eight bits, low-order bit first, as bytes. */
  function Octets(bits: seq<bool>): (bytes: seq<Byte>)
    requires |bits| % 8 == 0
    ensures 8 * |bytes| == |bits|
  {
    if bits == [] then []
    else
      ValueBound(bits[..8]);
      [Value(bits[..8])] + Octets(bits[8..])
  }

  /** Little-endian bytes of a field. */
  function Bytes(f: Field): (bytes: seq<Byte>)
    ensures |bytes| == Width(f)
  {
    Octets(Bits(f.value, 8 * Width(f)))
  }

  /** The number in some little-endian bytes. */
  function Number(bytes: seq<Byte>): nat {
    Value(MessageBits(bytes))
  }

  lemma BytesReadBack(f: Field)
    requires FieldFits(f)
    ensures Number(Bytes(f)) == f.value
  {
    BitsOfOctets(Bits(f.value, 8 * Width(f)));
    SmallPowers();
    ValueOfBits(f.value, 8 * Width(f));
  }

  lemma {:induction false} BitsOfOctets(bits: seq<bool>)
    requires |bits| % 8 == 0
    ensures MessageBits(Octets(bits)) == bits
  {
    if bits != [] {
      ValueBound(bits[..8]);
      BitsOfValue(bits[..8]);
      BitsOfOctets(bits[8..]);
      assert Octets(bits)[1..] == Octets(bits[8..]);
    }
  }

  function FieldBlocks(fields: seq<Field>): (blocks: seq<seq<Byte>>)
    ensures |blocks| == |fields|
    ensures forall i :: 0 <= i < |fields| ==> blocks[i] == Bytes(fields[i])
  {
    seq(|fields|, i requires 0 <= i < |fields| => Bytes(fields[i]))
  }

  function Print(fields: seq<Field>): seq<Byte> {
    Join(FieldBlocks(fields))
  }

  function FieldOffsets(fields: seq<Field>): (offsets: seq<nat>)
    ensures |offsets| == |fields| + 1 && offsets[0] == 0
  {
    Sums(Lengths(FieldBlocks(fields)))
  }

  /** A printed field reads back as its value. */
  lemma FieldReadsBack(bytes: seq<Byte>, at: nat, fields: seq<Field>, i: nat, offset: nat)
    requires i < |fields| && FieldFits(fields[i]) && offset == FieldOffsets(fields)[i]
    requires At(bytes, at, Print(fields))
    ensures at + offset + Width(fields[i]) <= |bytes|
    ensures Number(bytes[at + offset..at + offset + Width(fields[i])]) == fields[i].value
  {
    var blocks := FieldBlocks(fields);
    JoinAt(blocks, |blocks|, i);
    assert blocks[..|blocks|] == blocks;
    AtWithin(bytes, at, Print(fields), offset, blocks[i]);
    BytesReadBack(fields[i]);
  }

  // The three kinds of records

  const LOCAL_SIGNATURE := 0x04034b50
  const CENTRAL_SIGNATURE := 0x02014b50
  const END_SIGNATURE := 0x06054b50
  const VERSION := 20
  const UTF8_FLAG := 0x0800
  const DOS_TIME := 0x0000
  const DOS_DATE := 0x2821

  datatype Entry = Entry(name: seq<Byte>, crc: nat, size: nat, offset: nat)

  function LocalFields(e: Entry): seq<Field> {
    [U32(LOCAL_SIGNATURE), U16(VERSION), U16(UTF8_FLAG), U16(0), U16(DOS_TIME), U16(DOS_DATE),
     U32(e.crc), U32(e.size), U32(e.size), U16(|e.name|), U16(0)]
  }

  function CentralFields(e: Entry): seq<Field> {
    [U32(CENTRAL_SIGNATURE), U16(VERSION), U16(VERSION), U16(UTF8_FLAG), U16(0), U16(DOS_TIME), U16(DOS_DATE),
     U32(e.crc), U32(e.size), U32(e.size), U16(|e.name|), U16(0), U16(0), U16(0), U16(0), U32(0), U32(e.offset)]
  }

  function EndFields(count: nat, length: nat, offset: nat): seq<Field> {
    [U32(END_SIGNATURE), U16(0), U16(0), U16(count), U16(count), U32(length), U32(offset), U16(0)]
  }

  function LocalBlock(e: Entry, content: seq<Byte>): seq<Byte> {
    Print(LocalFields(e)) + e.name + content
  }

  function CentralBlock(e: Entry): seq<Byte> {
    Print(CentralFields(e)) + e.name
  }

  lemma PrintLength(fields: seq<Field>)
    ensures |Print(fields)| == FieldOffsets(fields)[|fields|]
  {
    var blocks := FieldBlocks(fields);
    JoinPrefix(blocks, |blocks|);
    assert blocks[..|blocks|] == blocks;
  }

  lemma WidthStep(fields: seq<Field>, i: nat)
    requires i < |fields|
    ensures FieldOffsets(fields)[i + 1] == FieldOffsets(fields)[i] + Width(fields[i])
  {
    assert Lengths(FieldBlocks(fields))[i] == |FieldBlocks(fields)[i]|;
  }

  lemma LocalHeaderLayout(e: Entry)
    ensures var f := FieldOffsets(LocalFields(e));
            && f[0] == 0 && f[1] == 4 && f[2] == 6 && f[3] == 8 && f[4] == 10 && f[5] == 12
            && f[6] == 14 && f[7] == 18 && f[8] == 22 && f[9] == 26 && f[10] == 28
    ensures |Print(LocalFields(e))| == 30
  {
    hide FieldOffsets, Print;
    var fields := LocalFields(e);
    WidthStep(fields, 0);
    WidthStep(fields, 1);
    WidthStep(fields, 2);
    WidthStep(fields, 3);
    WidthStep(fields, 4);
    WidthStep(fields, 5);
    WidthStep(fields, 6);
    WidthStep(fields, 7);
    WidthStep(fields, 8);
    WidthStep(fields, 9);
    WidthStep(fields, 10);
    PrintLength(fields);
  }

  lemma CentralHeaderLayout(e: Entry)
    ensures var f := FieldOffsets(CentralFields(e));
            && f[0] == 0 && f[1] == 4 && f[2] == 6 && f[3] == 8 && f[4] == 10 && f[5] == 12 && f[6] == 14
            && f[7] == 16 && f[8] == 20 && f[9] == 24 && f[10] == 28 && f[11] == 30 && f[12] == 32
            && f[13] == 34 && f[14] == 36 && f[15] == 38 && f[16] == 42
    ensures |Print(CentralFields(e))| == 46
  {
    hide FieldOffsets, Print;
    var fields := CentralFields(e);
    WidthStep(fields, 0);
    WidthStep(fields, 1);
    WidthStep(fields, 2);
    WidthStep(fields, 3);
    WidthStep(fields, 4);
    WidthStep(fields, 5);
    WidthStep(fields, 6);
    WidthStep(fields, 7);
    WidthStep(fields, 8);
    WidthStep(fields, 9);
    WidthStep(fields, 10);
    WidthStep(fields, 11);
    WidthStep(fields, 12);
    WidthStep(fields, 13);
    WidthStep(fields, 14);
    WidthStep(fields, 15);
    WidthStep(fields, 16);
    PrintLength(fields);
  }

  lemma EndRecordLayout(count: nat, length: nat, offset: nat)
    ensures var f := FieldOffsets(EndFields(count, length, offset));
            f[0] == 0 && f[1] == 4 && f[2] == 6 && f[3] == 8 && f[4] == 10 && f[5] == 12 && f[6] == 16 && f[7] == 20
    ensures |Print(EndFields(count, length, offset))| == 22
  {
    hide FieldOffsets, Print;
    var fields := EndFields(count, length, offset);
    WidthStep(fields, 0);
    WidthStep(fields, 1);
    WidthStep(fields, 2);
    WidthStep(fields, 3);
    WidthStep(fields, 4);
    WidthStep(fields, 5);
    WidthStep(fields, 6);
    WidthStep(fields, 7);
    PrintLength(fields);
  }

  // Archives

  /** An archived file: its name, the CRC-32 of its content and the content. */
  datatype Member = Member(name: seq<Byte>, crc: nat, content: seq<Byte>)

  function LocalLengths(members: seq<Member>): (lengths: seq<nat>)
    ensures |lengths| == |members|
    ensures forall k {:trigger lengths[k]} :: 0 <= k < |members| ==>
              lengths[k] == 30 + |members[k].name| + |members[k].content|
  {
    seq(|members|, k requires 0 <= k < |members| => 30 + |members[k].name| + |members[k].content|)
  }

  function CentralLengths(members: seq<Member>): (lengths: seq<nat>)
    ensures |lengths| == |members|
    ensures forall k {:trigger lengths[k]} :: 0 <= k < |members| ==> lengths[k] == 46 + |members[k].name|
  {
    seq(|members|, k requires 0 <= k < |members| => 46 + |members[k].name|)
  }

  /** Where each member's local header starts; the last number is where the directory starts. */
  function Offsets(members: seq<Member>): (at: seq<nat>)
    ensures |at| == |members| + 1
  {
    Sums(LocalLengths(members))
  }

  /** Where each directory header starts, counted from the start of the directory. */
  function CentralOffsets(members: seq<Member>): (at: seq<nat>)
    ensures |at| == |members| + 1
  {
    Sums(CentralLengths(members))
  }

  function EntryOf(m: Member, offset: nat): Entry {
    Entry(m.name, m.crc, |m.content|, offset)
  }

  function LocalBlocks(members: seq<Member>): (blocks: seq<seq<Byte>>)
    ensures |blocks| == |members|
    ensures forall k {:trigger blocks[k]} :: 0 <= k < |members| ==>
              blocks[k] == LocalBlock(EntryOf(members[k], Offsets(members)[k]), members[k].content)
  {
    seq(|members|, k requires 0 <= k < |members| =>
      LocalBlock(EntryOf(members[k], Offsets(members)[k]), members[k].content))
  }

  function CentralBlocks(members: seq<Member>): (blocks: seq<seq<Byte>>)
    ensures |blocks| == |members|
    ensures forall k {:trigger blocks[k]} :: 0 <= k < |members| ==>
              blocks[k] == CentralBlock(EntryOf(members[k], Offsets(members)[k]))
  {
    seq(|members|, k requires 0 <= k < |members| => CentralBlock(EntryOf(members[k], Offsets(members)[k])))
  }

  function EndRecord(members: seq<Member>): seq<Byte> {
    var n := |members|;
    Print(EndFields(n, CentralOffsets(members)[n], Offsets(members)[n]))
  }

  function Archive(members: seq<Member>): seq<Byte> {
    Join(LocalBlocks(members)) + Join(CentralBlocks(members)) + EndRecord(members)
  }

  predicate Storable(m: Member) {
    |m.name| <= 0xffff && m.crc <= 0xffff_ffff && |m.content| <= 0xffff_ffff
  }

  /** The format's bounds, without ZIP64: the end of the directory must still be addressable. */
  ghost predicate FitsZip(members: seq<Member>) {
    && |members| <= 0xffff
    && (forall k :: 0 <= k < |members| ==> Storable(members[k]))
    && Offsets(members)[|members|] + CentralOffsets(members)[|members|] <= 0xffff_ffff
  }

  // The readers

  /** Two bytes, the low-order one first. */
  function U16At(bytes: seq<Byte>, at: nat): nat
    requires at + 2 <= |bytes|
  {
    bytes[at] as nat + 0x100 * bytes[at + 1] as nat
  }

  /** Four bytes, the low-order one first. */
  function U32At(bytes: seq<Byte>, at: nat): nat
    requires at + 4 <= |bytes|
  {
    bytes[at] as nat + 0x100 * bytes[at + 1] as nat + 0x1_0000 * bytes[at + 2] as nat + 0x100_0000 * bytes[at + 3] as nat
  }

  /** What a local file header must hold (section 4.3.7), field by field: signature, version 2.0, UTF-8
      names, stored, midnight of the first of January 2000, one size twice, no extra field. */
  predicate LocalHeader(bytes: seq<Byte>, at: nat) {
    && at + 30 <= |bytes|
    && U32At(bytes, at) == 0x04034b50 && U16At(bytes, at + 4) == 20 && U16At(bytes, at + 6) == 0x0800
    && U16At(bytes, at + 8) == 0 && U16At(bytes, at + 10) == 0 && U16At(bytes, at + 12) == 0x2821
    && U32At(bytes, at + 18) == U32At(bytes, at + 22) && U16At(bytes, at + 28) == 0
  }

  datatype LocalRead = LocalRead(member: Member, next: nat)

  /** One local file header and the stored data behind it. */
  function ReadLocal(bytes: seq<Byte>, at: nat): (r: Option<LocalRead>)
    ensures r.Some? ==> at < r.value.next <= |bytes|
  {
    if !LocalHeader(bytes, at) then None
    else
      var nameEnd := at + 30 + U16At(bytes, at + 26);
      var end := nameEnd + U32At(bytes, at + 18);
      if end > |bytes| then None
      else Some(LocalRead(Member(bytes[at + 30..nameEnd], U32At(bytes, at + 14), bytes[nameEnd..end]), end))
  }

  /** A streaming reader: local headers are followed one after another. */
  function WalkLocals(bytes: seq<Byte>, at: nat): seq<Member>
    decreases |bytes| - at
  {
    var r := ReadLocal(bytes, at);
    if r.None? then [] else [r.value.member] + WalkLocals(bytes, r.value.next)
  }

  /** What a central directory header must hold (section 4.3.12): the same, without extra field, comment,
      further disk or attributes. */
  predicate CentralHeader(bytes: seq<Byte>, at: nat) {
    && at + 46 <= |bytes|
    && U32At(bytes, at) == 0x02014b50 && U16At(bytes, at + 4) == 20 && U16At(bytes, at + 6) == 20
    && U16At(bytes, at + 8) == 0x0800 && U16At(bytes, at + 10) == 0 && U16At(bytes, at + 12) == 0
    && U16At(bytes, at + 14) == 0x2821 && U32At(bytes, at + 20) == U32At(bytes, at + 24)
    && U16At(bytes, at + 30) == 0 && U16At(bytes, at + 32) == 0 && U16At(bytes, at + 34) == 0
    && U16At(bytes, at + 36) == 0 && U32At(bytes, at + 38) == 0
  }

  datatype CentralRead = CentralRead(entry: Entry, next: nat)

  /** One central directory header. */
  function ReadCentral(bytes: seq<Byte>, at: nat): Option<CentralRead> {
    if !CentralHeader(bytes, at) then None
    else
      var nameEnd := at + 46 + U16At(bytes, at + 28);
      if nameEnd > |bytes| then None
      else
        Some(CentralRead(Entry(bytes[at + 46..nameEnd], U32At(bytes, at + 16), U32At(bytes, at + 24),
                               U32At(bytes, at + 42)), nameEnd))
  }

  /** `count` directory headers from `at` on, each with the local header its offset points at; the two must
      agree. The local headers with their data fill everything from `local` to the directory, and the
      directory headers everything up to `end`. */
  function ReadCentrals(bytes: seq<Byte>, at: nat, local: nat, directory: nat, end: nat, count: nat): Option<seq<Member>>
    decreases count
  {
    if count == 0 then (if at == end && local == directory then Some([]) else None)
    else
      var c := ReadCentral(bytes, at);
      if c.None? || c.value.entry.offset != local then None
      else
        var r := ReadLocal(bytes, local);
        if r.None? || EntryOf(r.value.member, local) != c.value.entry then None
        else
          var rest := ReadCentrals(bytes, c.value.next, r.value.next, directory, end, count - 1);
          if rest.None? then None else Some([r.value.member] + rest.value)
  }

  /** What the end record must hold (section 4.3.16): one disk, one count twice, the size of a directory
      that ends where the record begins, no comment. */
  predicate EndHeader(bytes: seq<Byte>, at: nat) {
    && at + 22 == |bytes|
    && U32At(bytes, at) == 0x06054b50 && U16At(bytes, at + 4) == 0 && U16At(bytes, at + 6) == 0
    && U16At(bytes, at + 8) == U16At(bytes, at + 10)
    && U32At(bytes, at + 16) + U32At(bytes, at + 12) == at && U16At(bytes, at + 20) == 0
  }

  /** A random-access reader: the end record leads to the directory. */
  function ReadArchive(bytes: seq<Byte>): Option<seq<Member>> {
    if |bytes| < 22 then None
    else
      var at := |bytes| - 22;
      if !EndHeader(bytes, at) then None
      else ReadCentrals(bytes, U32At(bytes, at + 16), 0, U32At(bytes, at + 16), at, U16At(bytes, at + 10))
  }

  lemma {:induction false} ValueAppend(a: seq<bool>, b: seq<bool>)
    ensures Value(a + b) == Value(a) + Pow2(|a|) * Value(b)
  {
    if a == [] {
      assert a + b == b;
    } else {
      ValueAppend(a[1..], b);
      assert (a + b)[1..] == a[1..] + b;
      DoubleProduct(Pow2(|a| - 1), Value(b));
    }
  }

  lemma DoubleProduct(p: nat, v: nat)
    ensures 2 * (p * v) == (2 * p) * v
  {
  }

  lemma NumberStep(bytes: seq<Byte>)
    requires bytes != []
    ensures Number(bytes) == bytes[0] + 0x100 * Number(bytes[1..])
  {
    hide Value, Bits;
    SmallPowers();
    ValueOfBits(bytes[0], 8);
    ValueAppend(Bits(bytes[0], 8), MessageBits(bytes[1..]));
  }

  lemma NumberOfNone()
    ensures Number([]) == 0
  {
  }

  lemma NumberAt16(bytes: seq<Byte>, at: nat)
    requires at + 2 <= |bytes|
    ensures Number(bytes[at..at + 2]) == U16At(bytes, at)
  {
    hide Number;
    var b := bytes[at..at + 2];
    NumberStep(b);
    NumberStep(b[1..]);
    NumberOfNone();
    assert b[1..][1..] == [];
  }

  lemma NumberAt32(bytes: seq<Byte>, at: nat)
    requires at + 4 <= |bytes|
    ensures Number(bytes[at..at + 4]) == U32At(bytes, at)
  {
    hide Number;
    var b := bytes[at..at + 4];
    var c := b[1..];
    var d := c[1..];
    var e := d[1..];
    NumberStep(b);
    NumberStep(c);
    NumberStep(d);
    NumberStep(e);
    NumberOfNone();
    assert e[1..] == [];
  }

  lemma Reads16(bytes: seq<Byte>, at: nat, fields: seq<Field>, i: nat, offset: nat)
    requires i < |fields| && FieldFits(fields[i]) && fields[i].U16? && offset == FieldOffsets(fields)[i]
    requires At(bytes, at, Print(fields))
    ensures at + offset + 2 <= |bytes| && U16At(bytes, at + offset) == fields[i].value
  {
    hide Number, Print, FieldOffsets, U16At;
    FieldReadsBack(bytes, at, fields, i, offset);
    NumberAt16(bytes, at + offset);
  }

  lemma Reads32(bytes: seq<Byte>, at: nat, fields: seq<Field>, i: nat, offset: nat)
    requires i < |fields| && FieldFits(fields[i]) && fields[i].U32? && offset == FieldOffsets(fields)[i]
    requires At(bytes, at, Print(fields))
    ensures at + offset + 4 <= |bytes| && U32At(bytes, at + offset) == fields[i].value
  {
    hide Number, Print, FieldOffsets, U32At;
    FieldReadsBack(bytes, at, fields, i, offset);
    NumberAt32(bytes, at + offset);
  }

  // Reading one record back

  lemma LocalFieldsRead(bytes: seq<Byte>, at: nat, m: Member, offset: nat)
    requires Storable(m) && At(bytes, at, Print(LocalFields(EntryOf(m, offset))))
    ensures LocalHeader(bytes, at) && U32At(bytes, at + 14) == m.crc && U32At(bytes, at + 18) == |m.content|
    ensures U16At(bytes, at + 26) == |m.name|
  {
    hide Print, FieldOffsets, U16At, U32At, At;
    var e := EntryOf(m, offset);
    var fields := LocalFields(e);
    LocalHeaderLayout(e);
    Reads32(bytes, at, fields, 0, 0);
    Reads16(bytes, at, fields, 1, 4);
    Reads16(bytes, at, fields, 2, 6);
    Reads16(bytes, at, fields, 3, 8);
    Reads16(bytes, at, fields, 4, 10);
    Reads16(bytes, at, fields, 5, 12);
    Reads32(bytes, at, fields, 6, 14);
    Reads32(bytes, at, fields, 7, 18);
    Reads32(bytes, at, fields, 8, 22);
    Reads16(bytes, at, fields, 9, 26);
    Reads16(bytes, at, fields, 10, 28);
  }

  lemma ReadLocalBlock(bytes: seq<Byte>, at: nat, m: Member, offset: nat)
    requires Storable(m) && At(bytes, at, LocalBlock(EntryOf(m, offset), m.content))
    ensures ReadLocal(bytes, at) == Some(LocalRead(m, at + 30 + |m.name| + |m.content|))
  {
    hide Print, FieldOffsets, U16At, U32At, LocalHeader;
    var e := EntryOf(m, offset);
    LocalHeaderLayout(e);
    AtSplit(bytes, at, Print(LocalFields(e)) + m.name, m.content);
    AtSplit(bytes, at, Print(LocalFields(e)), m.name);
    LocalFieldsRead(bytes, at, m, offset);
  }

  lemma CentralFieldsRead(bytes: seq<Byte>, at: nat, e: Entry)
    requires |e.name| <= UINT16_MAX && e.size <= UINT32_MAX && e.crc <= UINT32_MAX && e.offset <= UINT32_MAX
    requires At(bytes, at, Print(CentralFields(e)))
    ensures CentralHeader(bytes, at) && U32At(bytes, at + 16) == e.crc && U32At(bytes, at + 24) == e.size
    ensures U16At(bytes, at + 28) == |e.name| && U32At(bytes, at + 42) == e.offset
  {
    hide Print, FieldOffsets, U16At, U32At, At;
    var fields := CentralFields(e);
    CentralHeaderLayout(e);
    Reads32(bytes, at, fields, 0, 0);
    Reads16(bytes, at, fields, 1, 4);
    Reads16(bytes, at, fields, 2, 6);
    Reads16(bytes, at, fields, 3, 8);
    Reads16(bytes, at, fields, 4, 10);
    Reads16(bytes, at, fields, 5, 12);
    Reads16(bytes, at, fields, 6, 14);
    Reads32(bytes, at, fields, 7, 16);
    Reads32(bytes, at, fields, 8, 20);
    Reads32(bytes, at, fields, 9, 24);
    Reads16(bytes, at, fields, 10, 28);
    Reads16(bytes, at, fields, 11, 30);
    Reads16(bytes, at, fields, 12, 32);
    Reads16(bytes, at, fields, 13, 34);
    Reads16(bytes, at, fields, 14, 36);
    Reads32(bytes, at, fields, 15, 38);
    Reads32(bytes, at, fields, 16, 42);
  }

  lemma ReadCentralBlock(bytes: seq<Byte>, at: nat, e: Entry)
    requires |e.name| <= UINT16_MAX && e.size <= UINT32_MAX && e.crc <= UINT32_MAX && e.offset <= UINT32_MAX
    requires At(bytes, at, CentralBlock(e))
    ensures ReadCentral(bytes, at) == Some(CentralRead(e, at + 46 + |e.name|))
    ensures ReadLocal(bytes, at).None?
  {
    hide Print, FieldOffsets, U16At, U32At, CentralHeader;
    CentralHeaderLayout(e);
    AtSplit(bytes, at, Print(CentralFields(e)), e.name);
    CentralFieldsRead(bytes, at, e);
    CentralIsNotLocal(bytes, at);
  }

  lemma CentralIsNotLocal(bytes: seq<Byte>, at: nat)
    requires CentralHeader(bytes, at)
    ensures ReadLocal(bytes, at).None?
  {
  }

  lemma ReadEndRecord(bytes: seq<Byte>, at: nat, count: nat, length: nat, offset: nat)
    requires count <= UINT16_MAX && offset + length == at <= UINT32_MAX
    requires |bytes| == at + 22 && At(bytes, at, Print(EndFields(count, length, offset)))
    ensures EndHeader(bytes, at)
    ensures ReadArchive(bytes) == ReadCentrals(bytes, offset, 0, offset, at, count)
    ensures ReadLocal(bytes, at).None?
  {
    hide Print, FieldOffsets, U16At, U32At, At, ReadCentrals;
    var fields := EndFields(count, length, offset);
    EndRecordLayout(count, length, offset);
    Reads32(bytes, at, fields, 0, 0);
    Reads16(bytes, at, fields, 1, 4);
    Reads16(bytes, at, fields, 2, 6);
    Reads16(bytes, at, fields, 3, 8);
    Reads16(bytes, at, fields, 4, 10);
    Reads32(bytes, at, fields, 5, 12);
    Reads32(bytes, at, fields, 6, 16);
    Reads16(bytes, at, fields, 7, 20);
  }

  // Where everything is in an archive

  lemma {:induction false} SameLengths(a: seq<nat>, b: seq<nat>)
    requires |a| == |b| && forall k :: 0 <= k < |a| ==> a[k] == b[k]
    ensures Sums(a) == Sums(b)
  {
    assert a == b;
  }

  lemma LocalBlockLengths(members: seq<Member>)
    ensures Sums(Lengths(LocalBlocks(members))) == Offsets(members)
  {
    hide Print, FieldOffsets, Sums;
    forall k | 0 <= k < |members|
      ensures Lengths(LocalBlocks(members))[k] == LocalLengths(members)[k]
    {
      assert Lengths(LocalBlocks(members))[k] == |LocalBlocks(members)[k]|;
      LocalHeaderLayout(EntryOf(members[k], Offsets(members)[k]));
    }
    SameLengths(Lengths(LocalBlocks(members)), LocalLengths(members));
  }

  lemma CentralBlockLengths(members: seq<Member>)
    ensures Sums(Lengths(CentralBlocks(members))) == CentralOffsets(members)
  {
    hide Print, FieldOffsets, Sums;
    forall k | 0 <= k < |members|
      ensures Lengths(CentralBlocks(members))[k] == CentralLengths(members)[k]
    {
      assert Lengths(CentralBlocks(members))[k] == |CentralBlocks(members)[k]|;
      CentralHeaderLayout(EntryOf(members[k], Offsets(members)[k]));
    }
    SameLengths(Lengths(CentralBlocks(members)), CentralLengths(members));
  }

  /** The whole of a joined sequence of blocks: its length and its parts. */
  lemma JoinWhole(blocks: seq<seq<Byte>>)
    ensures |Join(blocks)| == Sums(Lengths(blocks))[|blocks|]
    ensures forall k {:trigger blocks[k]} :: 0 <= k < |blocks| ==>
              At(Join(blocks), Sums(Lengths(blocks))[k], blocks[k])
  {
    hide Join, Sums;
    assert blocks[..|blocks|] == blocks;
    JoinPrefix(blocks, |blocks|);
    forall k | 0 <= k < |blocks|
      ensures At(Join(blocks), Sums(Lengths(blocks))[k], blocks[k])
    {
      JoinAt(blocks, |blocks|, k);
    }
  }

  lemma ThreeParts(a: seq<Byte>, b: seq<Byte>, c: seq<Byte>)
    ensures At(a + b + c, 0, a) && At(a + b + c, |a|, b) && At(a + b + c, |a| + |b|, c)
  {
    AtStart(a, b + c);
    Regroup(a, b, c);
    AtStart(b, c);
    AtLast(a, b + c);
    AtWithin(a + b + c, |a|, b + c, 0, b);
    AtLast(a + b, c);
  }

  /** Where the parts of an archive start. */
  lemma ArchiveParts(members: seq<Member>)
    ensures var bytes, n := Archive(members), |members|;
            && At(bytes, 0, Join(LocalBlocks(members)))
            && At(bytes, Offsets(members)[n], Join(CentralBlocks(members)))
            && At(bytes, Offsets(members)[n] + CentralOffsets(members)[n], EndRecord(members))
            && |bytes| == Offsets(members)[n] + CentralOffsets(members)[n] + 22
  {
    hide Join, Sums, Offsets, CentralOffsets, Print, FieldOffsets;
    var n := |members|;
    JoinWhole(LocalBlocks(members));
    LocalBlockLengths(members);
    JoinWhole(CentralBlocks(members));
    CentralBlockLengths(members);
    ThreeParts(Join(LocalBlocks(members)), Join(CentralBlocks(members)), EndRecord(members));
    EndRecordLayout(n, CentralOffsets(members)[n], Offsets(members)[n]);
  }

  lemma OffsetsIncrease(members: seq<Member>, k: nat)
    requires k < |members|
    ensures Offsets(members)[k + 1] == Offsets(members)[k] + 30 + |members[k].name| + |members[k].content|
    ensures CentralOffsets(members)[k + 1] == CentralOffsets(members)[k] + 46 + |members[k].name|
    ensures Offsets(members)[k] <= Offsets(members)[|members|]
  {
    assert LocalLengths(members)[k] == 30 + |members[k].name| + |members[k].content|;
    assert CentralLengths(members)[k] == 46 + |members[k].name|;
    SumsIncrease(LocalLengths(members), k, |members|);
  }

  /** Every stored offset fits its field and points at its member's own local header. */
  lemma OffsetPointsAtItsHeader(members: seq<Member>, k: nat)
    requires FitsZip(members) && k < |members|
    ensures Offsets(members)[k] <= UINT32_MAX
    ensures ReadLocal(Archive(members), Offsets(members)[k])
            == Some(LocalRead(members[k], Offsets(members)[k + 1]))
  {
    hide Join, Sums, Offsets, CentralOffsets, Archive, ReadLocal, LocalBlock;
    var bytes, blocks, at := Archive(members), LocalBlocks(members), Offsets(members)[k];
    OffsetsIncrease(members, k);
    ArchiveParts(members);
    JoinWhole(blocks);
    LocalBlockLengths(members);
    AtWithin(bytes, 0, Join(blocks), at, blocks[k]);
    ReadLocalBlock(bytes, at, members[k], at);
  }

  /** Where directory header `k` starts. */
  function DirectoryAt(members: seq<Member>, k: nat): nat
    requires k <= |members|
  {
    Offsets(members)[|members|] + CentralOffsets(members)[k]
  }

  lemma DirectoryReadsBack(members: seq<Member>, k: nat)
    requires FitsZip(members) && k < |members|
    ensures ReadCentral(Archive(members), DirectoryAt(members, k))
            == Some(CentralRead(EntryOf(members[k], Offsets(members)[k]), DirectoryAt(members, k + 1)))
    ensures ReadLocal(Archive(members), DirectoryAt(members, k)).None?
  {
    hide Join, Sums, Offsets, CentralOffsets, Archive, ReadLocal, ReadCentral, CentralBlock;
    var bytes, blocks := Archive(members), CentralBlocks(members);
    OffsetsIncrease(members, k);
    ArchiveParts(members);
    JoinWhole(blocks);
    CentralBlockLengths(members);
    AtWithin(bytes, Offsets(members)[|members|], Join(blocks), CentralOffsets(members)[k], blocks[k]);
    ReadCentralBlock(bytes, DirectoryAt(members, k), EntryOf(members[k], Offsets(members)[k]));
  }

  // Reading a whole archive back

  /** The walk from header `k` on gives the members from `k` on, and stops at the directory. */
  lemma {:induction false} WalkFrom(members: seq<Member>, k: nat)
    requires FitsZip(members) && k <= |members|
    ensures WalkLocals(Archive(members), Offsets(members)[k]) == members[k..]
    decreases |members| - k
  {
    hide Sums, Offsets, CentralOffsets, Archive, ReadLocal, EndRecord;
    if k == |members| {
      FirstOffset(members);
      if k == 0 {
        EndRecordReadsBack(members);
      } else {
        DirectoryReadsBack(members, 0);
      }
      assert members[k..] == [];
    } else {
      OffsetPointsAtItsHeader(members, k);
      WalkFrom(members, k + 1);
      assert members[k..] == [members[k]] + members[k + 1..];
    }
  }

  lemma FirstOffset(members: seq<Member>)
    ensures CentralOffsets(members)[0] == 0 && Offsets(members)[0] == 0
  {
  }

  lemma EndRecordReadsBack(members: seq<Member>)
    requires FitsZip(members)
    ensures var bytes, n := Archive(members), |members|;
            && ReadArchive(bytes) ==
               ReadCentrals(bytes, DirectoryAt(members, 0), 0, DirectoryAt(members, 0), DirectoryAt(members, n), n)
            && ReadLocal(bytes, DirectoryAt(members, n)).None?
  {
    hide Join, Sums, Offsets, CentralOffsets, Archive, ReadLocal, ReadArchive, ReadCentrals, Print;
    var n := |members|;
    ArchiveParts(members);
    FirstOffset(members);
    ReadEndRecord(Archive(members), DirectoryAt(members, n), n, CentralOffsets(members)[n], Offsets(members)[n]);
  }

  lemma {:induction false} CentralsFrom(members: seq<Member>, k: nat)
    requires FitsZip(members) && k <= |members|
    ensures ReadCentrals(Archive(members), DirectoryAt(members, k), Offsets(members)[k], Offsets(members)[|members|],
                         DirectoryAt(members, |members|), |members| - k) == Some(members[k..])
    decreases |members| - k
  {
    hide Sums, Offsets, CentralOffsets, Archive, ReadLocal, ReadCentral, DirectoryAt;
    if k < |members| {
      OffsetPointsAtItsHeader(members, k);
      DirectoryReadsBack(members, k);
      CentralsFrom(members, k + 1);
      assert members[k..] == [members[k]] + members[k + 1..];
    } else {
      assert members[k..] == [];
    }
  }

  lemma DirectoryStart(members: seq<Member>)
    ensures DirectoryAt(members, 0) == Offsets(members)[|members|]
  {
    hide Offsets, CentralOffsets;
    FirstOffset(members);
  }

  /** Both readers give back exactly the members: names, CRCs and contents, in order. */
  lemma ArchiveReadsBack(members: seq<Member>)
    requires FitsZip(members)
    ensures WalkLocals(Archive(members), 0) == members
    ensures ReadArchive(Archive(members)) == Some(members)
  {
    hide Sums, Offsets, CentralOffsets, Archive, ReadLocal, ReadCentral, ReadArchive, ReadCentrals, WalkLocals, DirectoryAt;
    FirstOffset(members);
    WalkFrom(members, 0);
    EndRecordReadsBack(members);
    CentralsFrom(members, 0);
    DirectoryStart(members);
    assert members[0..] == members;
  }

  /** What the format's bounds mean: counts, names, contents and checksums fit their fields, and all before
      the end record can be addressed. */
  lemma FitsMeans(members: seq<Member>)
    ensures FitsZip(members) <==>
            && |members| <= 65535
            && (forall m :: m in members ==> |m.name| <= 65535 && |m.content| <= 4294967295 && m.crc <= 4294967295)
            && |Archive(members)| - 22 <= 4294967295
  {
    hide Archive, Offsets, CentralOffsets, Join, EndRecord, CentralBlocks, LocalBlocks;
    ArchiveParts(members);
  }

  lemma OffsetsOfFront(members: seq<Member>, more: Member)
    ensures Offsets(members + [more])[|members|] == Offsets(members)[|members|]
    ensures CentralOffsets(members + [more])[|members|] == CentralOffsets(members)[|members|]
  {
    hide Sums;
    var all := members + [more];
    assert forall k :: 0 <= k < |members| ==> all[k] == members[k];
    SumsOfFront(LocalLengths(all), LocalLengths(members));
    SumsOfFront(CentralLengths(all), CentralLengths(members));
  }

  /** How large an archive is: 22 bytes, and for each member 76, its name twice and its content. */
  lemma ArchiveSize(members: seq<Member>, more: Member)
    ensures |Archive([])| == 22
    ensures |Archive(members + [more])| == |Archive(members)| + 76 + 2 * |more.name| + |more.content|
  {
    hide Archive, Offsets, CentralOffsets, Join, EndRecord;
    ArchiveParts([]);
    FirstOffset([]);
    ArchiveParts(members);
    ArchiveParts(members + [more]);
    OffsetsIncrease(members + [more], |members|);
    OffsetsOfFront(members, more);
  }

  lemma SumsOfFront(all: seq<nat>, front: seq<nat>)
    requires |all| == |front| + 1 && forall k {:trigger all[k]} {:trigger front[k]} :: 0 <= k < |front| ==> all[k] == front[k]
    ensures Sums(all)[|front|] == Sums(front)[|front|]
  {
    assert all[..|front|] == front;
  }

  /** Names, CRCs and contents are recoverable from the bytes, so no two inputs share an archive. */
  lemma ArchiveInjective(a: seq<Member>, b: seq<Member>)
    requires FitsZip(a) && FitsZip(b) && Archive(a) == Archive(b)
    ensures a == b
  {
    hide *;
    ArchiveReadsBack(a);
    ArchiveReadsBack(b);
  }
}
