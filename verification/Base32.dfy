/** Unpadded Base32 of the worker (src/worker/apfs_winfs_worker.cpp), section 6 of RFC 4648.
    A `uint32_t` is modelled by its 32 bits, high-order bit first, so that shifting left drops the
    bits that overflow; the source never masks its shift buffer. */
module Base32 {
  import opened Common

  // Bit strings, most significant bit first

  function Bits(value: nat, width: nat): (bits: seq<bool>)
    ensures |bits| == width
  {
    if width == 0 then [] else Bits(value / 2, width - 1) + [value % 2 == 1]
  }

  function Value(bits: seq<bool>): nat {
    if bits == [] then 0
    else 2 * Value(bits[..|bits| - 1]) + (if bits[|bits| - 1] then 1 else 0)
  }

  function Octets(bytes: seq<Byte>): (bits: seq<bool>)
    ensures |bits| == 8 * |bytes|
  {
    if bytes == [] then [] else Bits(bytes[0], 8) + Octets(bytes[1..])
  }

  // The specification: the bit string is cut into quintets, the last one filled with zeros

  function Symbol(v: nat): Byte
    requires v < 32
  {
    if v < 26 then 'A' as int + v else '2' as int + v - 26
  }

  function EncodeBits(bits: seq<bool>): seq<Byte>
    decreases |bits|
  {
    if bits == [] then []
    else if |bits| < 5 then [QuintetSymbol(bits + Zeros(5 - |bits|))]
    else [QuintetSymbol(bits[..5])] + EncodeBits(bits[5..])
  }

  function QuintetSymbol(quintet: seq<bool>): Byte
    requires |quintet| == 5
  {
    ValueBound(quintet);
    Symbol(Value(quintet))
  }

  function OctetByte(octet: seq<bool>): Byte
    requires |octet| == 8
  {
    ValueBound(octet);
    Value(octet)
  }

  function Encode(bytes: seq<Byte>): seq<Byte> {
    EncodeBits(Octets(bytes))
  }

  function UpperByte(b: Byte): Byte {
    if 'a' as int <= b <= 'z' as int then b - 32 else b
  }

  /** ASCII upper case, byte by byte. */
  function Upper(bytes: seq<Byte>): (upper: seq<Byte>)
    ensures |upper| == |bytes|
  {
    seq(|bytes|, i requires 0 <= i < |bytes| => UpperByte(bytes[i]))
  }

  // The worker's loops

  type Word = bits: seq<bool> | |bits| == 32 witness Bits(0, 32)

  /** `(buffer << |low|) | low`, keeping 32 bits. */
  function ShiftIn(buffer: Word, low: seq<bool>): Word
    requires |low| <= 32
  {
    buffer[|low|..] + low
  }

  /** `(buffer >> bits) & (2^width - 1)`, as bits. */
  function Field(buffer: Word, bits: nat, width: nat): (field: seq<bool>)
    requires bits + width <= 32
    ensures |field| == width
  {
    buffer[32 - bits - width..32 - bits]
  }

  method EncodeBase32(bytes: seq<Byte>) returns (encoded: seq<Byte>)
    ensures encoded == Encode(bytes)
  {
    encoded := [];
    var buffer: Word := Bits(0, 32);
    var bits := 0;
    var i := 0;
    assert Field(buffer, 0, 0) + Octets(bytes[i..]) == Octets(bytes);
    while i < |bytes|
      invariant 0 <= i <= |bytes| && bits < 5
      invariant encoded + EncodeBits(Field(buffer, 0, bits) + Octets(bytes[i..])) == Encode(bytes)
    {
      PrependOctet(buffer, bits, bytes, i);
      buffer := ShiftIn(buffer, Bits(bytes[i], 8));
      bits := bits + 8;
      i := i + 1;
      while bits >= 5
        invariant bits <= 12
        invariant encoded + EncodeBits(Field(buffer, 0, bits) + Octets(bytes[i..])) == Encode(bytes)
      {
        bits := bits - 5;
        CutQuintet(buffer, bits, Octets(bytes[i..]));
        encoded := encoded + [QuintetSymbol(Field(buffer, bits, 5))];
      }
    }
    assert Field(buffer, 0, bits) + Octets(bytes[i..]) == Field(buffer, 0, bits);
    if bits != 0 {
      LastQuintet(buffer, bits);
      encoded := encoded + [QuintetSymbol(Field(ShiftIn(buffer, Zeros(5 - bits)), 0, 5))];
    }
  }

  method DecodeBase32(encoded: seq<Byte>) returns (decoded: Option<seq<Byte>>)
    ensures forall d :: decoded == Some(d) <==> encoded != [] && Upper(encoded) == Encode(d)
  {
    if encoded == [] {
      return None;
    }
    var upper := Upper(encoded);
    var bytes, pending := DecodeSymbols(upper);
    if bytes.None? {
      OnlySymbolsEncoded(upper);
      return None;
    }
    ReadBack(upper, bytes.value, pending);
    var again := EncodeBase32(bytes.value);
    if again != upper {
      return None;
    }
    return bytes;
  }

  /** The decoding loop: whole octets are emitted, fewer than eight bits stay pending. */
  method DecodeSymbols(upper: seq<Byte>) returns (decoded: Option<seq<Byte>>, ghost pending: seq<bool>)
    ensures decoded.Some? <==> AllSymbols(upper)
    ensures decoded.Some? ==> |pending| < 8 && Quintets(upper) == Octets(decoded.value) + pending
  {
    hide Quintets, Octets, ShiftIn, Bits, OctetByte, SymbolValue;
    var bytes: seq<Byte> := [];
    var buffer: Word := Bits(0, 32);
    var bits := 0;
    pending := [];
    NothingYet(buffer);
    var i := 0;
    while i < |upper|
      invariant 0 <= i <= |upper| && bits < 8
      invariant AllSymbols(upper[..i])
      invariant pending == Field(buffer, 0, bits)
      invariant Quintets(upper[..i]) == Octets(bytes) + pending
    {
      var value := 0;
      if 'A' as int <= upper[i] <= 'Z' as int {
        value := upper[i] - 'A' as int;
      } else if '2' as int <= upper[i] <= '7' as int {
        value := upper[i] - '2' as int + 26;
      } else {
        return None, pending;
      }
      SymbolDecoded(upper[i], value);
      QuintetsGrow(upper, i, bytes, pending, Bits(value, 5));
      FieldAfterShift(buffer, bits, Bits(value, 5));
      buffer := ShiftIn(buffer, Bits(value, 5));
      bits := bits + 5;
      pending := Field(buffer, 0, bits);
      i := i + 1;
      if bits >= 8 {
        bits := bits - 8;
        OctetsGrow(bytes, buffer, bits);
        bytes := bytes + [OctetByte(Field(buffer, bits, 8))];
        pending := Field(buffer, 0, bits);
      }
    }
    assert upper[..i] == upper;
    return Some(bytes), pending;
  }

  lemma NothingYet(buffer: Word)
    ensures Quintets([]) == [] && Octets([]) == [] && Field(buffer, 0, 0) == []
  {
  }

  lemma SymbolDecoded(b: Byte, value: nat)
    requires IsSymbol(b) && value == if 'A' as int <= b then b - 'A' as int else b - '2' as int + 26
    ensures value == SymbolValue(b)
  {
  }

  // What symbols stand for

  predicate IsSymbol(b: Byte) {
    'A' as int <= b <= 'Z' as int || '2' as int <= b <= '7' as int
  }

  predicate AllSymbols(symbols: seq<Byte>) {
    forall k :: 0 <= k < |symbols| ==> IsSymbol(symbols[k])
  }

  lemma SymbolRoundTrip(v: nat)
    requires v < 32
    ensures IsSymbol(Symbol(v)) && SymbolValue(Symbol(v)) == v
  {
  }

  function SymbolValue(b: Byte): (v: nat)
    requires IsSymbol(b)
    ensures v < 32 && Symbol(v) == b
  {
    if 'A' as int <= b then b - 'A' as int else b - '2' as int + 26
  }

  function Quintets(symbols: seq<Byte>): (bits: seq<bool>)
    requires AllSymbols(symbols)
    ensures |bits| == 5 * |symbols|
  {
    if symbols == [] then [] else Bits(SymbolValue(symbols[0]), 5) + Quintets(symbols[1..])
  }

  lemma {:induction false} QuintetsAppend(symbols: seq<Byte>, b: Byte)
    requires AllSymbols(symbols)
    requires IsSymbol(b)
    ensures Quintets(symbols + [b]) == Quintets(symbols) + Bits(SymbolValue(b), 5)
  {
    if symbols == [] {
      assert Quintets([b]) == Bits(SymbolValue(b), 5) + Quintets([]);
    } else {
      assert (symbols + [b])[1..] == symbols[1..] + [b];
      QuintetsAppend(symbols[1..], b);
    }
  }

  lemma {:induction false} OctetsAppend(bytes: seq<Byte>, octet: seq<bool>)
    requires |octet| == 8
    ensures Octets(bytes + [OctetByte(octet)]) == Octets(bytes) + octet
  {
    var b := OctetByte(octet);
    if bytes == [] {
      BitsOfValue(octet);
      assert Octets([b]) == Bits(b, 8) + Octets([]);
    } else {
      assert (bytes + [b])[1..] == bytes[1..] + [b];
      OctetsAppend(bytes[1..], octet);
    }
  }

  /** An encoding spells out the bits, then fewer than five zeros. */
  lemma {:induction false} QuintetsOfEncoding(bits: seq<bool>)
    ensures AllSymbols(EncodeBits(bits))
    ensures |Quintets(EncodeBits(bits))| - |bits| < 5
    ensures bits <= Quintets(EncodeBits(bits))
    decreases |bits|
  {
    if bits == [] {
    } else if |bits| < 5 {
      QuintetOfSymbol(bits + Zeros(5 - |bits|));
    } else {
      QuintetsOfEncoding(bits[5..]);
      QuintetOfSymbol(bits[..5]);
      QuintetsPrepend(QuintetSymbol(bits[..5]), EncodeBits(bits[5..]));
      assert bits == bits[..5] + bits[5..];
    }
  }

  lemma QuintetOfSymbol(quintet: seq<bool>)
    requires |quintet| == 5
    ensures IsSymbol(QuintetSymbol(quintet))
    ensures Bits(SymbolValue(QuintetSymbol(quintet)), 5) == quintet
    ensures Quintets([QuintetSymbol(quintet)]) == quintet
  {
    ValueBound(quintet);
    SymbolRoundTrip(Value(quintet));
    BitsOfValue(quintet);
    QuintetsPrepend(QuintetSymbol(quintet), []);
  }

  lemma QuintetsPrepend(b: Byte, symbols: seq<Byte>)
    requires IsSymbol(b) && AllSymbols(symbols)
    ensures AllSymbols([b] + symbols)
    ensures Quintets([b] + symbols) == Bits(SymbolValue(b), 5) + Quintets(symbols)
  {
    assert ([b] + symbols)[1..] == symbols;
  }

  lemma OnlySymbolsEncoded(upper: seq<Byte>)
    requires !AllSymbols(upper)
    ensures forall d :: upper != Encode(d)
  {
    forall d
      ensures upper != Encode(d)
    {
      QuintetsOfEncoding(Octets(d));
    }
  }

  lemma {:induction false} OctetsInjective(a: seq<Byte>, b: seq<Byte>)
    requires Octets(a) == Octets(b)
    ensures a == b
  {
    assert |a| == |b|;
    if a != [] {
      assert Octets(a)[..8] == Bits(a[0], 8) && Octets(b)[..8] == Bits(b[0], 8);
      assert Octets(a)[8..] == Octets(a[1..]) && Octets(b)[8..] == Octets(b[1..]);
      ValueOfByte(a[0]);
      ValueOfByte(b[0]);
      OctetsInjective(a[1..], b[1..]);
      assert a == [a[0]] + a[1..] && b == [b[0]] + b[1..];
    }
  }

  lemma QuintetsGrow(upper: seq<Byte>, i: nat, bytes: seq<Byte>, pending: seq<bool>, quintet: seq<bool>)
    requires i < |upper| && AllSymbols(upper[..i])
    requires IsSymbol(upper[i]) && quintet == Bits(SymbolValue(upper[i]), 5)
    requires Quintets(upper[..i]) == Octets(bytes) + pending
    ensures AllSymbols(upper[..i + 1])
    ensures Quintets(upper[..i + 1]) == Octets(bytes) + (pending + quintet)
  {
    assert upper[..i] + [upper[i]] == upper[..i + 1];
    QuintetsAppend(upper[..i], upper[i]);
    Regroup(Octets(bytes), pending, quintet);
  }

  lemma OctetsGrow(bytes: seq<Byte>, buffer: Word, bits: nat)
    requires bits < 8
    ensures Octets(bytes) + Field(buffer, 0, bits + 8)
            == Octets(bytes + [OctetByte(Field(buffer, bits, 8))]) + Field(buffer, 0, bits)
  {
    OctetsAppend(bytes, Field(buffer, bits, 8));
    assert Field(buffer, 0, bits + 8) == Field(buffer, bits, 8) + Field(buffer, 0, bits);
    Regroup(Octets(bytes), Field(buffer, bits, 8), Field(buffer, 0, bits));
  }

  /** Whatever was encoded, reading its symbols back in whole octets gives it back. */
  lemma ReadBack(symbols: seq<Byte>, bytes: seq<Byte>, pending: seq<bool>)
    requires AllSymbols(symbols)
    requires |pending| < 8 && Quintets(symbols) == Octets(bytes) + pending
    ensures forall d :: symbols == Encode(d) ==> bytes == d
  {
    forall d | symbols == Encode(d)
      ensures bytes == d
    {
      QuintetsOfEncoding(Octets(d));
      assert |bytes| == |d|;
      assert Octets(bytes) == Quintets(symbols)[..8 * |d|] == Octets(d);
      OctetsInjective(bytes, d);
    }
  }

  /** Distinct byte strings have distinct encodings, and encodings are already upper case. */
  lemma EncodeInjective()
    ensures forall a, b :: Encode(a) == Encode(b) ==> a == b
    ensures forall a :: Upper(Encode(a)) == Encode(a)
  {
    forall a, b | Encode(a) == Encode(b)
      ensures a == b
    {
      QuintetsOfEncoding(Octets(a));
      QuintetsOfEncoding(Octets(b));
      assert |a| == |b|;
      assert Octets(a) == Quintets(Encode(a))[..8 * |a|] == Octets(b);
      OctetsInjective(a, b);
    }
    forall a
      ensures Upper(Encode(a)) == Encode(a)
    {
      QuintetsOfEncoding(Octets(a));
    }
  }

  /** An encoding has one symbol for every five bits, rounded up. */
  lemma {:induction false} EncodedLength(bits: seq<bool>)
    ensures |EncodeBits(bits)| == (|bits| + 4) / 5
    decreases |bits|
  {
    if |bits| >= 5 {
      EncodedLength(bits[5..]);
    }
  }

  // Bits and numbers

  lemma {:induction false} ValueBound(bits: seq<bool>)
    ensures Value(bits) < Pow2(|bits|)
    ensures |bits| == 5 ==> Value(bits) < 32
    ensures |bits| == 8 ==> Value(bits) < 256
  {
    if bits != [] {
      ValueBound(bits[..|bits| - 1]);
    }
    assert Pow2(5) == 32 && Pow2(8) == 8 * Pow2(5);
  }

  lemma {:induction false} BitsOfValue(bits: seq<bool>)
    ensures Bits(Value(bits), |bits|) == bits
  {
    if bits != [] {
      BitsOfValue(bits[..|bits| - 1]);
    }
  }

  lemma {:induction false} ValueOfBits(value: nat, width: nat)
    requires value < Pow2(width)
    ensures Value(Bits(value, width)) == value
  {
    if width != 0 {
      ValueOfBits(value / 2, width - 1);
      assert Bits(value, width)[..width - 1] == Bits(value / 2, width - 1);
    }
  }

  lemma ValueOfByte(b: Byte)
    ensures Value(Bits(b, 8)) == b
  {
    assert Pow2(8) == 16 * Pow2(4);
    ValueOfBits(b, 8);
  }

  lemma PrependOctet(buffer: Word, bits: nat, bytes: seq<Byte>, i: nat)
    requires i < |bytes| && bits < 5
    ensures Field(buffer, 0, bits) + Octets(bytes[i..])
            == Field(ShiftIn(buffer, Bits(bytes[i], 8)), 0, bits + 8) + Octets(bytes[i + 1..])
  {
    assert bytes[i..][1..] == bytes[i + 1..];
    FieldAfterShift(buffer, bits, Bits(bytes[i], 8));
  }

  /** Shifting bits in puts them after the ones already pending. */
  lemma FieldAfterShift(buffer: Word, bits: nat, low: seq<bool>)
    requires bits + |low| <= 32
    ensures Field(ShiftIn(buffer, low), 0, bits + |low|) == Field(buffer, 0, bits) + low
  {
  }

  lemma LastQuintet(buffer: Word, bits: nat)
    requires 0 < bits < 5
    ensures EncodeBits(Field(buffer, 0, bits))
            == [QuintetSymbol(Field(ShiftIn(buffer, Zeros(5 - bits)), 0, 5))]
  {
    FieldAfterShift(buffer, bits, Zeros(5 - bits));
  }

  lemma CutQuintet(buffer: Word, bits: nat, rest: seq<bool>)
    requires bits + 5 <= 12
    ensures EncodeBits(Field(buffer, 0, bits + 5) + rest)
            == [QuintetSymbol(Field(buffer, bits, 5))] + EncodeBits(Field(buffer, 0, bits) + rest)
  {
    assert (Field(buffer, 0, bits + 5) + rest)[..5] == Field(buffer, bits, 5);
    assert (Field(buffer, 0, bits + 5) + rest)[5..] == Field(buffer, 0, bits) + rest;
  }

  // A published vector

  /** Upper case is that of the letters from `a` to `z`, which then are the first 26 symbols. */
  lemma UpperOfLetters(v: nat, b: Byte)
    requires v < 26 && (b < 0x61 || b > 0x7a)
    ensures Upper([0x61 + v, b]) == [Symbol(v), b]
  {
  }

  /** The alphabet of section 6 of RFC 4648. */
  lemma SymbolSpelled(v: nat)
    requires v < 32
    ensures Symbol(v) == "ABCDEFGHIJKLMNOPQRSTUVWXYZ234567"[v] as int
  {
  }

  lemma BitLast(high: nat, low: nat, width: nat)
    requires low < 2 && width > 0
    ensures Bits(2 * high + low, width) == Bits(high, width - 1) + [low == 1]
  {
  }

  lemma NibbleLast(high: nat, low: nat, width: nat)
    requires low < 16 && width >= 4
    ensures Bits(16 * high + low, width) ==
            Bits(high, width - 4) + [low / 8 == 1, low / 4 % 2 == 1, low / 2 % 2 == 1, low % 2 == 1]
  {
    hide Bits;
    BitLast(8 * high + low / 2, low % 2, width);
    BitLast(4 * high + low / 4, low / 2 % 2, width - 1);
    BitLast(2 * high + low / 8, low / 4 % 2, width - 2);
    BitLast(high, low / 8, width - 3);
  }

  lemma OctetBits(high: nat, low: nat)
    requires high < 16 && low < 16
    ensures Bits(16 * high + low, 8) ==
            [high / 8 == 1, high / 4 % 2 == 1, high / 2 % 2 == 1, high % 2 == 1,
             low / 8 == 1, low / 4 % 2 == 1, low / 2 % 2 == 1, low % 2 == 1]
  {
    hide Bits;
    NibbleLast(high, low, 8);
    NibbleLast(0, high, 4);
    assert Bits(0, 0) == [];
  }

  lemma ValueLast(bits: seq<bool>, last: bool)
    ensures Value(bits + [last]) == 2 * Value(bits) + if last then 1 else 0
  {
    assert (bits + [last])[..|bits|] == bits;
  }

  lemma NothingHasNoValue()
    ensures Value([]) == 0
  {
  }

  lemma QuintetValue(a: bool, b: bool, c: bool, d: bool, e: bool)
    ensures Value([a, b, c, d, e]) ==
            (if a then 16 else 0) + (if b then 8 else 0) + (if c then 4 else 0) + (if d then 2 else 0) + if e then 1 else 0
  {
    hide Value;
    ValueLast([a, b, c, d], e);
    ValueLast([a, b, c], d);
    ValueLast([a, b], c);
    ValueLast([a], b);
    ValueLast([], a);
    assert [] + [a] == [a] && [a] + [b] == [a, b] && [a, b] + [c] == [a, b, c] && [a, b, c] + [d] == [a, b, c, d];
    assert [a, b, c, d] + [e] == [a, b, c, d, e];
    NothingHasNoValue();
  }

  lemma FirstQuintet(a: bool, b: bool, c: bool, d: bool, e: bool, rest: seq<bool>)
    ensures EncodeBits([a, b, c, d, e] + rest) == [QuintetSymbol([a, b, c, d, e])] + EncodeBits(rest)
  {
    var bits := [a, b, c, d, e] + rest;
    assert bits[..5] == [a, b, c, d, e] && bits[5..] == rest;
  }

  lemma FooBits()
    ensures var f, t := false, true;
            Octets([0x66, 0x6f, 0x6f]) ==
            [f, t, t, f, f] + ([t, t, f, f, t] + ([t, f, t, t, t] + ([t, f, t, t, f] + [t, t, t, t])))
  {
    hide Bits;
    OctetBits(6, 6);
    OctetBits(6, 15);
    var bytes: seq<Byte> := [0x66, 0x6f, 0x6f];
    assert bytes[1..] == [0x6f, 0x6f] && bytes[1..][1..] == [0x6f] && bytes[1..][1..][1..] == [];
    assert Octets(bytes) == Bits(0x66, 8) + (Bits(0x6f, 8) + (Bits(0x6f, 8) + []));
  }

  /** `foo` is `MZXW6`, by section 10 of RFC 4648. */
  lemma PublishedVector()
    ensures Encode([0x66, 0x6f, 0x6f]) == [0x4d, 0x5a, 0x58, 0x57, 0x36]
  {
    hide Bits, EncodeBits, Value, Octets;
    FooBits();
    var f, t := false, true;
    FirstQuintet(f, t, t, f, f, [t, t, f, f, t] + ([t, f, t, t, t] + ([t, f, t, t, f] + [t, t, t, t])));
    FirstQuintet(t, t, f, f, t, [t, f, t, t, t] + ([t, f, t, t, f] + [t, t, t, t]));
    FirstQuintet(t, f, t, t, t, [t, f, t, t, f] + [t, t, t, t]);
    FirstQuintet(t, f, t, t, f, [t, t, t, t]);
    LastSymbol(t, t, t, t);
    QuintetValue(f, t, t, f, f);
    QuintetValue(t, t, f, f, t);
    QuintetValue(t, f, t, t, t);
    QuintetValue(t, f, t, t, f);
    QuintetValue(t, t, t, t, f);
  }

  lemma LastSymbol(a: bool, b: bool, c: bool, d: bool)
    ensures EncodeBits([a, b, c, d]) == [QuintetSymbol([a, b, c, d, false])]
  {
    assert [a, b, c, d] + Zeros(1) == [a, b, c, d, false];
  }
}
