/** The table-driven CRC-32 of the release packager (scripts/build-release-package.ps1),
    proved equal to the bit-serial reflected CRC of section 8 of RFC 1952.
    A C# `uint` is modelled by its 32 bits, low-order bit first. */
module Crc32 {
  import opened Common

  type Register = bits: seq<bool> | |bits| == 32 witness Bits(0, 32)

  /** The `width` low-order bits of a number, low-order bit first. */
  function Bits(value: nat, width: nat): (bits: seq<bool>)
    ensures |bits| == width
    decreases width, value
  {
    if width == 0 then [] else [value % 2 == 1] + Bits(value / 2, width - 1)
  }

  function Value(bits: seq<bool>): nat {
    if bits == [] then 0 else (if bits[0] then 1 else 0) + 2 * Value(bits[1..])
  }

  function Xor(a: seq<bool>, b: seq<bool>): (bits: seq<bool>)
    requires |a| == |b|
    ensures |bits| == |a|
  {
    seq(|a|, i requires 0 <= i < |a| => a[i] != b[i])
  }

  function ShiftRight(register: seq<bool>, n: nat): (bits: seq<bool>)
    requires n <= |register|
    ensures |bits| == |register|
  {
    register[n..] + Zeros(n)
  }

  const POLYNOMIAL: Register := Bits(0xedb88320, 32)
  function Ones(): Register {
    seq(32, i => true)
  }

  // The reference: every message bit enters the register in turn

  function FeedBit(register: Register, bit: bool): Register {
    if register[0] != bit then Xor(POLYNOMIAL, ShiftRight(register, 1)) else ShiftRight(register, 1)
  }

  function Feed(register: Register, bits: seq<bool>): Register
    decreases |bits|
  {
    if bits == [] then register else Feed(FeedBit(register, bits[0]), bits[1..])
  }

  /** Bytes are sent low-order bit first. */
  function MessageBits(message: seq<Byte>): seq<bool> {
    if message == [] then [] else Bits(message[0], 8) + MessageBits(message[1..])
  }

  /** CRC-32 of a message: preset to ones, every bit fed, complemented. */
  function Crc(message: seq<Byte>): Register {
    Xor(Ones(), Feed(Ones(), MessageBits(message)))
  }

  // The packager's arithmetic

  /** One step of the table generator's inner loop. */
  function Shift(current: Register): Register {
    if current[0] then Xor(POLYNOMIAL, ShiftRight(current, 1)) else ShiftRight(current, 1)
  }

  function ShiftTimes(current: Register, n: nat): Register {
    if n == 0 then current else Shift(ShiftTimes(current, n - 1))
  }

  ghost predicate IsCrcTable(table: seq<Register>) {
    |table| == 256 && forall v :: 0 <= v < 256 ==> table[v] == ShiftTimes(Bits(v, 32), 8)
  }

  /** The generator's inner loop, for one entry of the table. */
  method TableEntry(value: nat) returns (current: Register)
    ensures current == ShiftTimes(Bits(value, 32), 8)
  {
    hide Shift;
    current := Bits(value, 32);
    var bit := 0;
    while bit < 8
      invariant 0 <= bit <= 8 && current == ShiftTimes(Bits(value, 32), bit)
    {
      current := Shift(current);
      bit := bit + 1;
    }
  }

  method CreateCrcTable() returns (table: array<Register>)
    ensures fresh(table) && IsCrcTable(table[..])
  {
    hide Shift, ShiftTimes, Bits;
    table := new Register[256];
    var value := 0;
    while value < table.Length
      invariant 0 <= value <= table.Length
      invariant forall v :: 0 <= v < value ==> table[v] == ShiftTimes(Bits(v, 32), 8)
    {
      table[value] := TableEntry(value);
      value := value + 1;
    }
  }

  function Flatten(chunks: seq<seq<Byte>>): seq<Byte> {
    if chunks == [] then [] else chunks[0] + Flatten(chunks[1..])
  }

  /** The table index `(crc ^ b) & 0xff`. */
  function TableIndex(crc: Register, b: Byte): (index: nat)
    ensures index < 256
  {
    var low := Xor(crc[..8], Bits(b, 8));
    ValueBound(low);
    Value(low)
  }

  /** `chunks` are the buffers that successive reads of the stream filled. Whatever the
      chunk boundaries, the result is the CRC of the whole stream. */
  method ComputeCrc32(table: array<Register>, chunks: seq<seq<Byte>>) returns (crc: Register)
    requires IsCrcTable(table[..])
    ensures crc == Crc(Flatten(chunks))
  {
    crc := Ones();
    ghost var done: seq<Byte> := [];
    var read := 0;
    while read < |chunks|
      invariant 0 <= read <= |chunks|
      invariant Flatten(chunks) == done + Flatten(chunks[read..])
      invariant crc == Feed(Ones(), MessageBits(done))
    {
      FlattenSplit(chunks, read, done);
      crc := FeedBuffer(table, crc, done, chunks[read]);
      done := done + chunks[read];
      read := read + 1;
    }
    assert done == Flatten(chunks);
    crc := Xor(Ones(), crc);
  }

  /** The packager's inner loop, over one filled buffer. */
  method FeedBuffer(table: array<Register>, start: Register, ghost before: seq<Byte>, buffer: seq<Byte>)
    returns (crc: Register)
    requires IsCrcTable(table[..])
    requires start == Feed(Ones(), MessageBits(before))
    ensures crc == Feed(Ones(), MessageBits(before + buffer))
  {
    hide Feed, MessageBits, Xor, ShiftRight, TableIndex, ShiftTimes, Bits;
    crc := start;
    assert before + buffer[..0] == before;
    var index := 0;
    while index < |buffer|
      invariant 0 <= index <= |buffer|
      invariant crc == Feed(Ones(), MessageBits(before + buffer[..index]))
    {
      FeedNextByte(table[..], crc, before + buffer[..index], buffer[index]);
      crc := Xor(table[TableIndex(crc, buffer[index])], ShiftRight(crc, 8));
      index := index + 1;
      assert before + buffer[..index] == before + buffer[..index - 1] + [buffer[index - 1]];
    }
    assert before + buffer[..index] == before + buffer;
  }

  lemma FlattenSplit(chunks: seq<seq<Byte>>, i: nat, done: seq<Byte>)
    requires i < |chunks|
    ensures done + Flatten(chunks[i..]) == done + chunks[i] + Flatten(chunks[i + 1..])
  {
    assert chunks[i..][1..] == chunks[i + 1..];
    Regroup(done, chunks[i], Flatten(chunks[i + 1..]));
  }

  lemma FeedNextByte(table: seq<Register>, crc: Register, done: seq<Byte>, b: Byte)
    requires IsCrcTable(table)
    requires crc == Feed(Ones(), MessageBits(done))
    ensures Xor(table[TableIndex(crc, b)], ShiftRight(crc, 8)) == Feed(Ones(), MessageBits(done + [b]))
  {
    TableFeedsOneByte(table, crc, b);
    MessageBitsAppend(done, b);
    FeedAppend(Ones(), MessageBits(done), Bits(b, 8));
  }

  // Bits and numbers

  lemma {:induction false} ValueBound(bits: seq<bool>)
    ensures Value(bits) < Pow2(|bits|)
    ensures |bits| == 8 ==> Value(bits) < 256
    ensures |bits| == 32 ==> Value(bits) <= UINT32_MAX
  {
    if bits != [] {
      ValueBound(bits[1..]);
    }
    SmallPowers();
  }

  lemma SmallPowers()
    ensures Pow2(8) == UINT8_MAX + 1 && Pow2(16) == UINT16_MAX + 1 && Pow2(32) == UINT32_MAX + 1
  {
    assert Pow2(4) == 16;
    assert Pow2(8) == 16 * Pow2(4);
    assert Pow2(12) == 16 * Pow2(8);
    assert Pow2(16) == 16 * Pow2(12);
    assert Pow2(20) == 16 * Pow2(16);
    assert Pow2(24) == 16 * Pow2(20);
    assert Pow2(28) == 16 * Pow2(24);
    assert Pow2(32) == 16 * Pow2(28);
  }

  lemma {:induction false} BitsOfValue(bits: seq<bool>)
    ensures Bits(Value(bits), |bits|) == bits
  {
    if bits != [] {
      BitsOfValue(bits[1..]);
    }
  }

  /** A value that fits in `width` bits is zero-extended by further bits. */
  lemma {:induction false} BitsExtend(bits: seq<bool>, more: nat)
    ensures Bits(Value(bits), |bits| + more) == bits + Zeros(more)
  {
    if bits == [] {
      BitsOfZero(more);
    } else {
      BitsExtend(bits[1..], more);
      assert bits + Zeros(more) == [bits[0]] + (bits[1..] + Zeros(more));
    }
  }

  lemma {:induction false} BitsOfZero(width: nat)
    ensures Bits(0, width) == Zeros(width)
  {
    if width != 0 {
      BitsOfZero(width - 1);
      assert Zeros(width) == [false] + Zeros(width - 1);
    }
  }

  lemma {:induction false} ValueOfBits(value: nat, width: nat)
    requires value < Pow2(width)
    ensures Value(Bits(value, width)) == value
  {
    if width != 0 {
      ValueOfBits(value / 2, width - 1);
    }
  }

  // Feeding

  lemma {:induction false} FeedAppend(register: Register, a: seq<bool>, b: seq<bool>)
    ensures Feed(register, a + b) == Feed(Feed(register, a), b)
    decreases |a|
  {
    if a == [] {
      assert a + b == b;
    } else {
      assert (a + b)[1..] == a[1..] + b;
      FeedAppend(FeedBit(register, a[0]), a[1..], b);
    }
  }

  lemma {:induction false} MessageBitsAppend(message: seq<Byte>, b: Byte)
    ensures MessageBits(message + [b]) == MessageBits(message) + Bits(b, 8)
  {
    if message == [] {
      assert MessageBits([b]) == Bits(b, 8) + MessageBits([]);
    } else {
      assert (message + [b])[1..] == message[1..] + [b];
      MessageBitsAppend(message[1..], b);
      Regroup(Bits(message[0], 8), MessageBits(message[1..]), Bits(b, 8));
    }
  }

  // Shifting

  lemma {:induction false} ShiftTimesFromFront(x: Register, n: nat)
    ensures ShiftTimes(x, n + 1) == ShiftTimes(Shift(x), n)
  {
    if n != 0 {
      ShiftTimesFromFront(x, n - 1);
    }
  }

  /** Shifting is linear over exclusive or. */
  lemma ShiftXor(a: Register, b: Register)
    ensures Shift(Xor(a, b)) == Xor(Shift(a), Shift(b))
  {
    forall i | 0 <= i < 32
      ensures Shift(Xor(a, b))[i] == Xor(Shift(a), Shift(b))[i]
    {
    }
  }

  lemma {:induction false} ShiftTimesXor(a: Register, b: Register, n: nat)
    ensures ShiftTimes(Xor(a, b), n) == Xor(ShiftTimes(a, n), ShiftTimes(b, n))
  {
    if n != 0 {
      ShiftTimesXor(a, b, n - 1);
      ShiftXor(ShiftTimes(a, n - 1), ShiftTimes(b, n - 1));
    }
  }

  /** Feeding a bit is shifting with the pending message bits added in. */
  lemma FeedIsShift(register: Register, pending: Register)
    ensures Xor(FeedBit(register, pending[0]), ShiftRight(pending, 1)) == Shift(Xor(register, pending))
  {
    forall i | 0 <= i < 32
      ensures Xor(FeedBit(register, pending[0]), ShiftRight(pending, 1))[i] == Shift(Xor(register, pending))[i]
    {
    }
  }

  lemma ShiftTwice(register: Register, n: nat)
    requires 0 < n <= 32
    ensures ShiftRight(ShiftRight(register, 1), n - 1) == ShiftRight(register, n)
  {
  }

  /** Feeding bits one at a time is shifting with all of them added in at the start. */
  lemma {:induction false} SerialIsParallel(register: Register, pending: Register, n: nat)
    requires n <= 32
    ensures Xor(Feed(register, pending[..n]), ShiftRight(pending, n)) == ShiftTimes(Xor(register, pending), n)
    decreases n
  {
    if n == 0 {
      assert ShiftRight(pending, 0) == pending;
    } else {
      var next := ShiftRight(pending, 1);
      FeedIsShift(register, pending);
      SerialIsParallel(FeedBit(register, pending[0]), next, n - 1);
      ShiftTimesFromFront(Xor(register, pending), n - 1);
      assert pending[..n][1..] == next[..n - 1];
      ShiftTwice(pending, n);
    }
  }

  /** Bits above the low `n` pass through `n` shifts without meeting the polynomial. */
  lemma {:induction false} ShiftHighBits(high: Register, n: nat)
    requires n <= 32
    requires forall i :: 0 <= i < n ==> !high[i]
    ensures ShiftTimes(high, n) == ShiftRight(high, n)
  {
    if n == 0 {
      assert ShiftRight(high, 0) == high;
    } else {
      ShiftHighBits(high, n - 1);
      assert ShiftRight(ShiftRight(high, n - 1), 1) == ShiftRight(high, n);
    }
  }

  /** The table step feeds exactly one byte to the bit-serial register. */
  lemma TableFeedsOneByte(table: seq<Register>, crc: Register, b: Byte)
    requires IsCrcTable(table)
    ensures Xor(table[TableIndex(crc, b)], ShiftRight(crc, 8)) == Feed(crc, Bits(b, 8))
  {
    var byte := Bits(b, 8);
    var pending: Register := byte + Zeros(24);
    var x := Xor(crc, pending);
    var low: Register, high: Register := x[..8] + Zeros(24), Zeros(8) + x[8..];

    SerialIsParallel(crc, pending, 8);
    assert pending[..8] == byte;
    assert ShiftRight(pending, 8) == Zeros(32);
    assert Xor(Feed(crc, byte), Zeros(32)) == Feed(crc, byte);

    assert x == Xor(low, high);
    ShiftTimesXor(low, high, 8);
    ShiftHighBits(high, 8);
    assert ShiftRight(high, 8) == ShiftRight(crc, 8);

    assert x[..8] == Xor(crc[..8], byte);
    BitsExtend(x[..8], 24);
  }

  // Published numbers

  lemma BitFirst(high: nat, low: nat, width: nat)
    requires low < 2 && width > 0
    ensures Bits(2 * high + low, width) == [low == 1] + Bits(high, width - 1)
  {
  }

  lemma NibbleFirst(high: nat, low: nat, width: nat)
    requires low < 16 && width >= 4
    ensures Bits(16 * high + low, width) ==
            [low % 2 == 1, low / 2 % 2 == 1, low / 4 % 2 == 1, low / 8 == 1] + Bits(high, width - 4)
  {
    hide Bits;
    BitFirst(8 * high + low / 2, low % 2, width);
    BitFirst(4 * high + low / 4, low / 2 % 2, width - 1);
    BitFirst(2 * high + low / 8, low / 4 % 2, width - 2);
    BitFirst(high, low / 8, width - 3);
  }

  lemma LowHalf()
    ensures Bits(0xedb88320, 32) ==
            [false, false, false, false, false, true, false, false, true, true, false, false, false, false, false, true] + Bits(0xedb8, 16)
  {
    hide Bits;
    NibbleFirst(0xedb8832, 0x0, 32);
    NibbleFirst(0xedb883, 0x2, 28);
    NibbleFirst(0xedb88, 0x3, 24);
    NibbleFirst(0xedb8, 0x8, 20);
  }

  lemma HighHalf()
    ensures Bits(0xedb8, 16) ==
            [false, false, false, true, true, true, false, true, true, false, true, true, false, true, true, true]
  {
    hide Bits;
    NibbleFirst(0xedb, 0x8, 16);
    NibbleFirst(0xed, 0xb, 12);
    NibbleFirst(0xe, 0xd, 8);
    NibbleFirst(0, 0xe, 4);
    assert Bits(0, 0) == [];
  }

  /** The polynomial of section 8 of RFC 1952, by the exponents of its terms below the 32nd. The register
      holds the coefficient of the highest power first. */
  lemma PolynomialTerms(e: nat)
    requires e < 32
    ensures POLYNOMIAL[31 - e] <==> e in {26, 23, 22, 16, 12, 11, 10, 8, 7, 5, 4, 2, 1, 0}
  {
    hide Bits;
    LowHalf();
    HighHalf();
  }

  // The same on machine words

  function Low(word: bv32): bool {
    word & 1 == 1
  }

  function Half(word: bv32): bv32 {
    word >> 1
  }

  /** The `width` low-order bits of a machine word, low-order bit first. */
  function Word(word: bv32, width: nat): (bits: seq<bool>)
    ensures |bits| == width
  {
    if width == 0 then [] else [Low(word)] + Word(Half(word), width - 1)
  }

  function Both(a: bv32, b: bv32): bv32 {
    a ^ b
  }

  lemma XorHalves(a: bv32, b: bv32)
    ensures Half(Both(a, b)) == Both(Half(a), Half(b)) && (Low(Both(a, b)) <==> Low(a) != Low(b))
  {
  }

  lemma {:induction false} WordXor(a: bv32, b: bv32, width: nat)
    ensures Word(Both(a, b), width) == Xor(Word(a, width), Word(b, width))
    decreases width
  {
    hide Low, Half, Both;
    if width > 0 {
      WordXor(Half(a), Half(b), width - 1);
      XorHalves(a, b);
    }
  }

  function Wider(mask: bv32): bv32 {
    (mask << 1) | 1
  }

  function Mask(n: nat): bv32 {
    if n == 0 then 0 else Wider(Mask(n - 1))
  }

  predicate Within(word: bv32, mask: bv32) {
    word & mask == word
  }

  lemma HalfWithin(word: bv32, mask: bv32)
    requires Within(word, Wider(mask))
    ensures Within(Half(word), mask)
  {
  }

  lemma NothingWithin(word: bv32)
    requires Within(word, 0)
    ensures !Low(word)
  {
  }

  lemma {:induction false} WordTop(word: bv32, n: nat)
    requires Within(word, Mask(n))
    ensures Word(word, n + 1) == Word(word, n) + [false]
    decreases n
  {
    hide Low, Half, Within, Wider;
    if n == 0 {
      NothingWithin(word);
    } else {
      HalfWithin(word, Mask(n - 1));
      WordTop(Half(word), n - 1);
    }
  }

  lemma Masks()
    ensures Mask(31) == 0x7fff_ffff
  {
    assert Mask(4) == 0xf;
    assert Mask(8) == 0xff;
    assert Mask(12) == 0xfff;
    assert Mask(16) == 0xffff;
    assert Mask(20) == 0xf_ffff;
    assert Mask(24) == 0xff_ffff;
    assert Mask(28) == 0xfff_ffff;
  }

  lemma HalfIsNarrow(word: bv32)
    ensures Within(Half(word), Mask(31))
  {
    hide Mask;
    Masks();
  }

  lemma WordShift(word: bv32)
    ensures Word(Half(word), 32) == ShiftRight(Word(word, 32), 1)
  {
    hide Low, Half, Within, Mask;
    HalfIsNarrow(word);
    WordTop(Half(word), 31);
    assert Word(word, 32)[1..] == Word(Half(word), 31);
  }

  lemma WordStep(word: bv32, width: nat)
    requires width > 0
    ensures Word(word, width) == [Low(word)] + Word(Half(word), width - 1)
  {
  }

  lemma WordNibble(word: bv32, width: nat)
    requires width >= 4
    ensures Word(word, width) ==
            [Low(word), Low(Half(word)), Low(Half(Half(word))), Low(Half(Half(Half(word))))]
            + Word(Half(Half(Half(Half(word)))), width - 4)
  {
    hide Low, Half, Word;
    WordStep(word, width);
    WordStep(Half(word), width - 1);
    WordStep(Half(Half(word)), width - 2);
    WordStep(Half(Half(Half(word))), width - 3);
  }

  lemma WordLowHalf()
    ensures Word(0xedb8_8320, 32) ==
            [false, false, false, false, false, true, false, false, true, true, false, false, false, false, false, true] + Word(0xedb8, 16)
  {
    hide Word;
    WordNibble(0xedb8_8320, 32);
    WordNibble(0x0edb_8832, 28);
    WordNibble(0x00ed_b883, 24);
    WordNibble(0x000e_db88, 20);
  }

  lemma WordHighHalf()
    ensures Word(0xedb8, 16) ==
            [false, false, false, true, true, true, false, true, true, false, true, true, false, true, true, true]
  {
    hide Word;
    WordNibble(0xedb8, 16);
    WordNibble(0x0edb, 12);
    WordNibble(0x00ed, 8);
    WordNibble(0x000e, 4);
    assert Word(0, 0) == [];
  }

  lemma WordPolynomial()
    ensures POLYNOMIAL == Word(0xedb8_8320, 32)
  {
    hide Bits, Word;
    LowHalf();
    HighHalf();
    WordLowHalf();
    WordHighHalf();
  }

  lemma OnHalves(word: bv32, bit: bool)
    ensures FeedBit(Word(word, 32), bit) ==
            Word(if Low(word) != bit then Both(0xedb8_8320, Half(word)) else Half(word), 32)
  {
    hide Xor, ShiftRight, Bits, Low, Half, Both;
    WordPolynomial();
    WordShift(word);
    WordXor(0xedb8_8320, Half(word), 32);
    WordStep(word, 32);
  }

  /** The reference and the generator's inner loop, in the arithmetic of a `uint`. */
  lemma OnWords(word: bv32, bit: bool)
    ensures FeedBit(Word(word, 32), bit) ==
            Word(if (word & 1 == 1) != bit then 0xedb8_8320 ^ (word >> 1) else word >> 1, 32)
    ensures Shift(Word(word, 32)) == Word(if word & 1 == 1 then 0xedb8_8320 ^ (word >> 1) else word >> 1, 32)
  {
    hide Xor, ShiftRight, Bits, Word;
    OnHalves(word, bit);
    OnHalves(word, false);
  }

  function FedWord(word: bv32, bit: bool): bv32 {
    if (word & 1 == 1) != bit then 0xedb8_8320 ^ (word >> 1) else word >> 1
  }

  lemma FeedWord(word: bv32, bit: bool, rest: seq<bool>)
    ensures Feed(Word(word, 32), [bit] + rest) == Feed(Word(FedWord(word, bit), 32), rest)
  {
    hide Word, FeedBit;
    OnWords(word, bit);
    assert ([bit] + rest)[1..] == rest;
  }

  function FedByte(word: bv32, a: bool, b: bool, c: bool, d: bool, e: bool, f: bool, g: bool, h: bool): bv32 {
    FedWord(FedWord(FedWord(FedWord(FedWord(FedWord(FedWord(FedWord(word, a), b), c), d), e), f), g), h)
  }

  lemma FeedByte(word: bv32, a: bool, b: bool, c: bool, d: bool, e: bool, f: bool, g: bool, h: bool)
    ensures Feed(Word(word, 32), [a, b, c, d, e, f, g, h]) == Word(FedByte(word, a, b, c, d, e, f, g, h), 32)
  {
    hide FedWord, Word, FeedBit;
    FeedWord(word, a, [b, c, d, e, f, g, h]);
    var s := FedWord(word, a);
    FeedWord(s, b, [c, d, e, f, g, h]);
    var t := FedWord(s, b);
    FeedWord(t, c, [d, e, f, g, h]);
    var u := FedWord(t, c);
    FeedWord(u, d, [e, f, g, h]);
    var v := FedWord(u, d);
    FeedWord(v, e, [f, g, h]);
    var w := FedWord(v, e);
    FeedWord(w, f, [g, h]);
    var x := FedWord(w, f);
    FeedWord(x, g, [h]);
    FeedWord(FedWord(x, g), h, []);
  }

  /** A digit of the message, from one machine word to the next. */
  lemma FeedDigit(word: bv32, digit: nat, message: seq<Byte>, next: bv32)
    requires digit < 10 && message != [] && message[0] == 0x30 + digit
    requires next == FedByte(word, digit % 2 == 1, digit / 2 % 2 == 1, digit / 4 % 2 == 1, digit / 8 == 1,
                             true, true, false, false)
    ensures Feed(Word(word, 32), MessageBits(message)) == Feed(Word(next, 32), MessageBits(message[1..]))
  {
    hide Bits, Word, Feed, FedByte;
    NibbleFirst(3, digit, 8);
    NibbleFirst(0, 3, 4);
    assert Bits(0, 0) == [];
    assert Bits(0x30 + digit, 8) == [digit % 2 == 1, digit / 2 % 2 == 1, digit / 4 % 2 == 1, digit / 8 == 1,
                                     true, true, false, false];
    FeedByte(word, digit % 2 == 1, digit / 2 % 2 == 1, digit / 4 % 2 == 1, digit / 8 == 1, true, true, false, false);
    FeedAppend(Word(word, 32), Bits(0x30 + digit, 8), MessageBits(message[1..]));
  }

  lemma OnesWord()
    ensures Ones() == Word(0xffff_ffff, 32)
  {
    hide Word;
    WordNibble(0xffff_ffff, 32);
    WordNibble(0x0fff_ffff, 28);
    WordNibble(0x00ff_ffff, 24);
    WordNibble(0x000f_ffff, 20);
    WordNibble(0x0000_ffff, 16);
    WordNibble(0x0000_0fff, 12);
    WordNibble(0x0000_00ff, 8);
    WordNibble(0x0000_000f, 4);
    assert Word(0, 0) == [];
  }

  lemma CheckWords()
    ensures FedByte(0xffff_ffff, true, false, false, false, true, true, false, false) == 0x7c23_1048
    ensures FedByte(0x7c23_1048, false, true, false, false, true, true, false, false) == 0xb0ac_bb32
    ensures FedByte(0xb0ac_bb32, true, true, false, false, true, true, false, false) == 0x77b7_9c2d
    ensures FedByte(0x77b7_9c2d, false, false, true, false, true, true, false, false) == 0x641c_1f5c
    ensures FedByte(0x641c_1f5c, true, false, true, false, true, true, false, false) == 0x340a_c5e3
    ensures FedByte(0x340a_c5e3, false, true, true, false, true, true, false, false) == 0xf68d_2c9e
    ensures FedByte(0xf68d_2c9e, true, true, true, false, true, true, false, false) == 0xaffc_9660
    ensures FedByte(0xaffc_9660, false, false, false, true, true, true, false, false) == 0x651f_2550
    ensures FedByte(0x651f_2550, true, false, false, true, true, true, false, false) == 0x340b_c6d9
  {
  }

  /** The published check value: the CRC-32 of the digits from 1 to 9. */
  lemma CheckValue()
    ensures Crc([0x31, 0x32, 0x33, 0x34, 0x35, 0x36, 0x37, 0x38, 0x39]) == Word(0xcbf4_3926, 32)
  {
    hide Word, FedByte, FedWord, Feed, MessageBits;
    var message: seq<Byte> := [0x31, 0x32, 0x33, 0x34, 0x35, 0x36, 0x37, 0x38, 0x39];
    assert message[0..] == message && message[9..] == [];
    CheckWords();
    OnesWord();
    FeedDigit(0xffff_ffff, 1, message[0..], 0x7c23_1048);
    FeedDigit(0x7c23_1048, 2, message[1..], 0xb0ac_bb32);
    FeedDigit(0xb0ac_bb32, 3, message[2..], 0x77b7_9c2d);
    FeedDigit(0x77b7_9c2d, 4, message[3..], 0x641c_1f5c);
    FeedDigit(0x641c_1f5c, 5, message[4..], 0x340a_c5e3);
    FeedDigit(0x340a_c5e3, 6, message[5..], 0xf68d_2c9e);
    FeedDigit(0xf68d_2c9e, 7, message[6..], 0xaffc_9660);
    FeedDigit(0xaffc_9660, 8, message[7..], 0x651f_2550);
    FeedDigit(0x651f_2550, 9, message[8..], 0x340b_c6d9);
    FeedNothing(Word(0x340b_c6d9, 32));
    WordXor(0xffff_ffff, 0x340b_c6d9, 32);
  }

  lemma FeedNothing(register: Register)
    ensures Feed(register, MessageBits([])) == register
  {
  }
}
