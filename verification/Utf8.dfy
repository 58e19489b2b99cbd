/** UTF-8 as the worker and the packager use it through their text libraries: an encoder of
    Unicode scalar values and the strict decoder that accepts exactly what the encoder writes. */
module Utf8 {
  import opened Common

  function EncodeChar(c: char): (bytes: seq<Byte>)
    ensures 1 <= |bytes| <= 4
  {
    var v := c as int;
    var w := v / 0x40;
    var x := w / 0x40;
    if v < 0x80 then [v]
    else if v < 0x800 then [0xc0 + w, Tail(v)]
    else if v < 0x10000 then [0xe0 + x, Tail(w), Tail(v)]
    else [0xf0 + x / 0x40, Tail(x), Tail(w), Tail(v)]
  }

  /** Published encodings, by section 7 of RFC 3629 and of the euro sign. */
  lemma Spelled()
    ensures Encode("A") == [0x41] && EncodeChar(0x20ac as char) == [0xe2, 0x82, 0xac]
    ensures EncodeChar(0x391 as char) == [0xce, 0x91] && EncodeChar(0x233b4 as char) == [0xf0, 0xa3, 0x8e, 0xb4]
  {
    assert "A"[1..] == [];
  }

  function Tail(v: nat): Byte {
    0x80 + v % 0x40
  }

  /** The number whose last base-64 digit is carried by `tail`. */
  function Extend(high: nat, tail: int): (v: nat)
    requires IsTail(tail)
    ensures v / 0x40 == high && Tail(v) == tail
  {
    high * 0x40 + (tail - 0x80)
  }

  function Encode(text: string): seq<Byte> {
    if text == [] then [] else EncodeChar(text[0]) + Encode(text[1..])
  }

  predicate IsTail(b: int) {
    0x80 <= b < 0xc0
  }

  /** A code point in its shortest form: at least `low`, in range, not a surrogate. */
  function ToChar(v: int, low: int): (c: Option<char>)
    requires low >= 0
    ensures c.Some? ==> v == c.value as int && low <= v
    ensures forall d: char :: d as int == v && low <= v ==> c == Some(d)
  {
    if v < low || 0xd800 <= v < 0xe000 || v > 0x10ffff then None else Some(v as char)
  }

  /** The first character of a byte string, when it is well formed and in its shortest form. */
  function DecodeChar(bytes: seq<Byte>): (c: Option<char>)
    requires bytes != []
  {
    var b: int := bytes[0];
    if b < 0x80 then ToChar(b, 0)
    else if 0xc0 <= b < 0xe0 && |bytes| >= 2 then Decode2(b, bytes[1])
    else if 0xe0 <= b < 0xf0 && |bytes| >= 3 then Decode3(b, bytes[1], bytes[2])
    else if 0xf0 <= b < 0xf8 && |bytes| >= 4 then Decode4(b, bytes[1], bytes[2], bytes[3])
    else None
  }

  function Decode2(b: int, b1: int): (c: Option<char>)
    requires 0xc0 <= b < 0xe0 && 0 <= b1 < 256
    ensures c.Some? ==> EncodeChar(c.value) == [b, b1]
  {
    if IsTail(b1) then ToChar(Extend(b - 0xc0, b1), 0x80) else None
  }

  function Decode3(b: int, b1: int, b2: int): (c: Option<char>)
    requires 0xe0 <= b < 0xf0 && 0 <= b1 < 256 && 0 <= b2 < 256
    ensures c.Some? ==> EncodeChar(c.value) == [b, b1, b2]
  {
    if IsTail(b1) && IsTail(b2)
    then ToChar(Extend(Extend(b - 0xe0, b1), b2), 0x800)
    else None
  }

  function Decode4(b: int, b1: int, b2: int, b3: int): (c: Option<char>)
    requires 0xf0 <= b < 0xf8 && 0 <= b1 < 256 && 0 <= b2 < 256 && 0 <= b3 < 256
  {
    if IsTail(b1) && IsTail(b2) && IsTail(b3)
    then ToChar(Extend(Extend(Extend(b - 0xf0, b1), b2), b3), 0x10000)
    else None
  }

  lemma EncodeFour(c: char, w: nat, x: nat, y: nat)
    requires c as int >= 0x10000 && c as int / 0x40 == w && w / 0x40 == x && x / 0x40 == y
    ensures y < 8 && EncodeChar(c) == [0xf0 + y, Tail(x), Tail(w), Tail(c as int)]
  {
  }

  lemma Decode4Sound(b: int, b1: int, b2: int, b3: int)
    requires 0xf0 <= b < 0xf8 && 0 <= b1 < 256 && 0 <= b2 < 256 && 0 <= b3 < 256
    requires Decode4(b, b1, b2, b3).Some?
    ensures EncodeChar(Decode4(b, b1, b2, b3).value) == [b, b1, b2, b3]
  {
    var x := Extend(b - 0xf0, b1);
    var w := Extend(x, b2);
    EncodeFour(Decode4(b, b1, b2, b3).value, w, x, b - 0xf0);
  }

  /** What was decoded is exactly what the encoder would have written there. */
  lemma DecodeCharSound(bytes: seq<Byte>)
    requires bytes != []
    ensures var c := DecodeChar(bytes);
            c.Some? ==> EncodeChar(c.value) <= bytes
  {
    if bytes[0] >= 0xf0 && DecodeChar(bytes).Some? {
      Decode4Sound(bytes[0], bytes[1], bytes[2], bytes[3]);
    }
  }

  lemma DecodeCharComplete(c: char, rest: seq<Byte>)
    ensures DecodeChar(EncodeChar(c) + rest) == Some(c)
  {
    var v, e := c as int, EncodeChar(c);
    var w := v / 0x40;
    var x := w / 0x40;
    DigitsBack(v);
    DigitsBack(w);
    DigitsBack(x);
    if v < 0x80 {
    } else if v < 0x800 {
      assert Decode2(e[0], e[1]) == Some(c);
    } else if v < 0x10000 {
      assert Decode3(e[0], e[1], e[2]) == Some(c);
    } else {
      assert Decode4(e[0], e[1], e[2], e[3]) == Some(c);
    }
  }

  lemma DigitsBack(v: nat)
    ensures IsTail(Tail(v)) && Extend(v / 0x40, Tail(v)) == v
  {
  }

  function Decode(bytes: seq<Byte>): Option<string>
    decreases |bytes|
  {
    if bytes == [] then Some([])
    else
      var c := DecodeChar(bytes);
      if c.None? then None
      else
        DecodeCharSound(bytes);
        var rest := Decode(bytes[|EncodeChar(c.value)|..]);
        if rest.None? then None else Some([c.value] + rest.value)
  }

  /** Decoding is the exact inverse of encoding. */
  lemma {:induction false} DecodeIff(bytes: seq<Byte>, text: string)
    ensures Decode(bytes) == Some(text) <==> bytes == Encode(text)
    decreases |bytes| + |text|
  {
    if bytes == [] {
    } else if text == [] {
    } else {
      var c := DecodeChar(bytes);
      if c.Some? {
        DecodeCharSound(bytes);
        var rest := bytes[|EncodeChar(c.value)|..];
        assert bytes == EncodeChar(c.value) + rest;
        DecodeIff(rest, text[1..]);
        assert text == [text[0]] + text[1..];
      }
      if bytes == Encode(text) {
        DecodeCharComplete(text[0], Encode(text[1..]));
        assert bytes[|EncodeChar(text[0])|..] == Encode(text[1..]);
      }
    }
  }

  lemma EncodeInjective(a: string, b: string)
    requires Encode(a) == Encode(b)
    ensures a == b
  {
    DecodeIff(Encode(a), a);
    DecodeIff(Encode(a), b);
  }
}
