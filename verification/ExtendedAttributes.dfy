/** Windows names for APFS extended attributes (src/worker/apfs_winfs_worker.cpp): direct names,
    Base32 aliases, and the way attributes are reported to Windows and read back from it.
    An attribute name is a string of Unicode scalar values; a `QByteArray` is a byte sequence. */
module ExtendedAttributes {
  import opened Common
  import Base32
  import Text
  import Utf8
  import opened AttributePolicy

  const MAX_NAME_BYTES := 127
  const ALIAS_VALUE_VERSION: Byte := 1
  const ALIAS_PREFIX := "APFS.XATTR."
  const FORBIDDEN := "\\/:*?\"<>|,+=[];"

  datatype Xattr = Xattr(name: string, value: seq<Byte>)

  /** One FILE_FULL_EA_INFORMATION record. */
  datatype EaRecord = EaRecord(flags: Byte, name: seq<Byte>, value: seq<Byte>)

  datatype XattrMutation = XattrMutation(name: string, value: seq<Byte>, remove: bool)

  // Direct names

  /** `toLatin1`: what Latin-1 cannot hold becomes a question mark. */
  function Latin1(text: string): (bytes: seq<Byte>)
    ensures |bytes| == |text|
  {
    seq(|text|, i requires 0 <= i < |text| => if text[i] as int < 256 then text[i] as int else '?' as int)
  }

  function FromLatin1(bytes: seq<Byte>): (text: string)
    ensures |text| == |bytes|
  {
    seq(|bytes|, i requires 0 <= i < |bytes| => bytes[i] as char)
  }

  predicate StartsWithAliasPrefix(bytes: seq<Byte>) {
    |bytes| >= |ALIAS_PREFIX| && Base32.Upper(bytes[..|ALIAS_PREFIX|]) == Latin1(ALIAS_PREFIX)
  }

  predicate IsDirectByte(b: Byte) {
    0x20 <= b <= 0x7e && b !in Latin1(FORBIDDEN)
  }

  function DirectName(name: string): Option<seq<Byte>> {
    var ascii := Latin1(name);
    if ascii == [] || |ascii| > MAX_NAME_BYTES || FromLatin1(ascii) != name || StartsWithAliasPrefix(ascii)
       || exists i :: 0 <= i < |ascii| && !IsDirectByte(ascii[i])
    then None
    else Some(ascii)
  }

  /** Which names go by themselves: at most 127 printable ASCII characters, none of those that Windows
      reserves, and not the prefix of an alias in any case. */
  lemma DirectIff(name: string)
    ensures DirectName(name).Some? <==>
            && 1 <= |name| <= 127
            && (forall i :: 0 <= i < |name| ==> 0x20 <= name[i] as int <= 0x7e && name[i] !in "\\/:*?\"<>|,+=[];")
            && !(|name| >= 11 && Text.Lower(name[..11]) == "apfs.xattr.")
    ensures DirectName(name).Some? ==>
              && |DirectName(name).value| == |name|
              && forall i :: 0 <= i < |name| ==> DirectName(name).value[i] == name[i] as int
  {
    if forall i :: 0 <= i < |name| ==> name[i] as int < 0x80 {
      PrefixInAnyCase(name);
    }
    Latin1BackIff(name);
    forall i | 0 <= i < |name| && name[i] as int < 0x80
      ensures Latin1(name)[i] in Latin1(FORBIDDEN) <==> name[i] in FORBIDDEN
    {
      ReservedByte(name[i]);
    }
  }

  lemma ReservedByte(c: char)
    requires c as int < 0x80
    ensures c as int in Latin1(FORBIDDEN) <==> c in FORBIDDEN
  {
    if c as int in Latin1(FORBIDDEN) {
      var k :| 0 <= k < |FORBIDDEN| && Latin1(FORBIDDEN)[k] == c as int;
      assert FORBIDDEN[k] as int < 0x80;
      assert FORBIDDEN[k] == c;
    }
    if c in FORBIDDEN {
      var k :| 0 <= k < |FORBIDDEN| && FORBIDDEN[k] == c;
      assert Latin1(FORBIDDEN)[k] == c as int;
    }
  }

  lemma Latin1BackIff(name: string)
    ensures FromLatin1(Latin1(name)) == name <==> forall i :: 0 <= i < |name| ==> name[i] as int < 256
  {
    assert forall i :: 0 <= i < |name| ==> FromLatin1(Latin1(name))[i] == Latin1(name)[i] as char;
  }

  lemma PrefixInAnyCase(name: string)
    requires forall i :: 0 <= i < |name| ==> name[i] as int < 0x80
    ensures StartsWithAliasPrefix(Latin1(name)) <==> |name| >= 11 && Text.Lower(name[..11]) == "apfs.xattr."
  {
    if |name| >= 11 {
      var upper, lower := Base32.Upper(Latin1(name)[..11]), Text.Lower(name[..11]);
      assert forall i :: 0 <= i < 11 ==> lower[i] == Text.LowerChar(name[i]) && upper[i] == Base32.UpperByte(name[i] as int);
      assert forall i :: 0 <= i < 11 ==> (upper[i] == Latin1(ALIAS_PREFIX)[i] <==> lower[i] == "apfs.xattr."[i]);
    }
  }

  // Aliases

  function EncodeAlias(name: string): seq<Byte> {
    Latin1(ALIAS_PREFIX) + Base32.Encode(Utf8.Encode(name))
  }

  /** `wire` spells the alias of `name`, in any letter case. */
  ghost predicate IsAliasOf(wire: seq<Byte>, name: string) {
    && name != []
    && |Utf8.Encode(name)| <= MAX_NAME_BYTES && 0 !in Utf8.Encode(name)
    && Base32.Upper(wire) == EncodeAlias(name)
  }

  method DecodeAlias(wire: seq<Byte>) returns (name: Option<string>)
    ensures forall n :: name == Some(n) <==> IsAliasOf(wire, n)
    ensures forall n :: name == Some(n) <==>
              && n != [] && |Utf8.Encode(n)| <= 127 && 0 !in Utf8.Encode(n)
              && Base32.Upper(wire) == Latin1("APFS.XATTR.") + Base32.Encode(Utf8.Encode(n))
  {
    forall n
      ensures IsAliasOf(wire, n) ==> StartsWithAliasPrefix(wire)
      ensures StartsWithAliasPrefix(wire) ==>
                (IsAliasOf(wire, n) <==>
                 n != [] && |Utf8.Encode(n)| <= MAX_NAME_BYTES && 0 !in Utf8.Encode(n)
                 && Base32.Upper(wire[|ALIAS_PREFIX|..]) == Base32.Encode(Utf8.Encode(n)))
    {
      SplitAlias(wire, n);
    }
    if !StartsWithAliasPrefix(wire) {
      return None;
    }
    var decoded := Base32.DecodeBase32(wire[|ALIAS_PREFIX|..]);
    if decoded.None? || decoded.value == [] || |decoded.value| > MAX_NAME_BYTES || 0 in decoded.value {
      assert forall n :: IsAliasOf(wire, n) ==> decoded == Some(Utf8.Encode(n)) by {
        NonEmptyEncodings();
      }
      return None;
    }
    name := Utf8.Decode(decoded.value);
    forall n
      ensures name == Some(n) <==> IsAliasOf(wire, n)
    {
      Utf8.DecodeIff(decoded.value, n);
      NonEmptyEncodings();
      assert decoded == Some(decoded.value);
    }
  }

  lemma NonEmptyEncodings()
    ensures forall n :: n != [] ==> Utf8.Encode(n) != []
    ensures forall b :: b != [] ==> Base32.Encode(b) != []
    ensures Utf8.Encode([]) == []
  {
    forall b | b != []
      ensures Base32.Encode(b) != []
    {
      Base32.EncodedLength(Base32.Octets(b));
    }
  }

  lemma SplitAlias(wire: seq<Byte>, name: string)
    ensures Base32.Upper(wire) == EncodeAlias(name) <==>
            StartsWithAliasPrefix(wire)
            && Base32.Upper(wire[|ALIAS_PREFIX|..]) == Base32.Encode(Utf8.Encode(name))
  {
    var p := |ALIAS_PREFIX|;
    if |wire| >= p {
      assert Base32.Upper(wire) == Base32.Upper(wire[..p]) + Base32.Upper(wire[p..]);
      assert EncodeAlias(name)[..p] == Latin1(ALIAS_PREFIX);
      assert EncodeAlias(name)[p..] == Base32.Encode(Utf8.Encode(name));
    }
  }

  lemma AliasIsUpper(name: string)
    ensures Base32.Upper(EncodeAlias(name)) == EncodeAlias(name)
  {
    Base32.EncodeInjective();
    var p := Latin1(ALIAS_PREFIX);
    assert forall c :: c in ALIAS_PREFIX ==> c == '.' || 'A' <= c <= 'Z';
    assert Base32.Upper(p) == p;
    var e := Base32.Encode(Utf8.Encode(name));
    assert Base32.Upper(p + e) == Base32.Upper(p) + Base32.Upper(e);
  }

  /** Distinct names have distinct aliases. */
  lemma AliasInjective(a: string, b: string)
    requires EncodeAlias(a) == EncodeAlias(b)
    ensures a == b
  {
    assert EncodeAlias(a)[|ALIAS_PREFIX|..] == Base32.Encode(Utf8.Encode(a));
    assert EncodeAlias(b)[|ALIAS_PREFIX|..] == Base32.Encode(Utf8.Encode(b));
    Base32.EncodeInjective();
    Utf8.EncodeInjective(a, b);
  }

  // Reading records from Windows

  /** What one record asks for, if it is acceptable. `critical` holds the attribute names whose
      contents the file system manages itself. */
  ghost predicate Asks(ea: EaRecord, critical: set<seq<Byte>>, m: XattrMutation, aliased: bool) {
    && ea.flags == 0 && ea.name != []
    && aliased == StartsWithAliasPrefix(ea.name)
    && m.remove == (ea.value == [])
    && Utf8.Encode(m.name) !in critical
    && (if aliased then
          IsAliasOf(ea.name, m.name)
          && (m.remove || ea.value[0] == ALIAS_VALUE_VERSION)
          && m.value == if m.remove then [] else ea.value[1..]
        else
          DirectName(m.name) == Some(ea.name) && m.value == ea.value)
  }

  /** A record whose name is no alias is acceptable exactly when it has no flags and its name is a direct
      name and not critical; it asks to set that name to the value, or to remove it if there is none. */
  lemma AsksDirectly(ea: EaRecord, critical: set<seq<Byte>>, m: XattrMutation, aliased: bool)
    requires !StartsWithAliasPrefix(ea.name)
    ensures Asks(ea, critical, m, aliased) <==>
            && !aliased && ea.flags == 0 && ea.name !in critical && DirectName(FromLatin1(ea.name)) == Some(ea.name)
            && m == XattrMutation(FromLatin1(ea.name), ea.value, ea.value == [])
  {
    hide Utf8.Encode;
    DirectNameOnly(ea.name);
    if DirectName(m.name) == Some(ea.name) {
      DirectIsUtf8(m.name);
    }
  }

  /** A record whose name is an alias is acceptable exactly when it has no flags, the name it stands for is
      not critical, and the value is empty or starts with the version 1; it asks to remove that name, or
      to set it to what follows. */
  lemma AsksByAlias(ea: EaRecord, critical: set<seq<Byte>>, m: XattrMutation, aliased: bool, name: string)
    requires IsAliasOf(ea.name, name)
    ensures Asks(ea, critical, m, aliased) <==>
            && aliased && ea.flags == 0 && Utf8.Encode(name) !in critical && (ea.value == [] || ea.value[0] == 1)
            && m == XattrMutation(name, if ea.value == [] then [] else ea.value[1..], ea.value == [])
  {
    hide Utf8.Encode, EncodeAlias;
    SplitAlias(ea.name, name);
    if IsAliasOf(ea.name, m.name) {
      AliasInjective(name, m.name);
    }
  }

  lemma Latin1Concat(a: string, b: string)
    ensures Latin1(a + b) == Latin1(a) + Latin1(b)
  {
  }

  /** An alias as it is spelled. */
  lemma AliasSpelled()
    ensures EncodeAlias("foo") == Latin1("APFS.XATTR.MZXW6")
  {
    hide Base32.Encode, Utf8.Encode, Latin1;
    AsciiIsUtf8("foo");
    Base32.PublishedVector();
    FooInLatin1();
    Latin1Concat("APFS.XATTR.", "MZXW6");
    assert "APFS.XATTR." + "MZXW6" == "APFS.XATTR.MZXW6";
  }

  lemma FooInLatin1()
    ensures Latin1("foo") == [0x66, 0x6f, 0x6f] && Latin1("MZXW6") == [0x4d, 0x5a, 0x58, 0x57, 0x36]
  {
  }

  /** What a reported attribute looks like on the wire. */
  lemma WireSpelled(names: seq<string>, fold: string -> string, a: Xattr)
    ensures GoesDirect(names, fold, a.name) ==> Wire(names, fold, a) == EaRecord(0, Latin1(a.name), a.value)
    ensures !GoesDirect(names, fold, a.name) ==>
              Wire(names, fold, a) == EaRecord(0, Latin1("APFS.XATTR.") + Base32.Encode(Utf8.Encode(a.name)), [1] + a.value)
  {
    hide Base32.Encode, Utf8.Encode, Collides;
  }

  class EaMutationCollector {
    var mutations: seq<XattrMutation>
    var policyMutations: seq<PolicyMutation>

    constructor ()
      ensures mutations == [] && policyMutations == []
    {
      mutations, policyMutations := [], [];
    }

    /** Appends exactly what the record asks for, or refuses it and changes nothing. */
    method Collect(ea: EaRecord, critical: set<seq<Byte>>) returns (ok: bool)
      modifies this
      ensures ok <==> exists m, aliased :: Asks(ea, critical, m, aliased)
      ensures forall m, aliased :: Asks(ea, critical, m, aliased) ==>
                mutations == old(mutations) + [m]
                && policyMutations == old(policyMutations) + [PolicyMutation(m.name, m.remove, aliased)]
      ensures !ok ==> mutations == old(mutations) && policyMutations == old(policyMutations)
    {
      if ea.name == [] || ea.flags != 0 {
        return false;
      }
      var remove := ea.value == [];
      var aliased := false;
      var decodedName: string;
      var decodedBytes: seq<Byte>;
      var decodedValue: seq<Byte> := [];
      if StartsWithAliasPrefix(ea.name) {
        aliased := true;
        var alias := DecodeAlias(ea.name);
        if alias.None? {
          assert forall n :: IsAliasOf(ea.name, n) ==> alias == Some(n);
          return false;
        }
        assert IsAliasOf(ea.name, alias.value);
        decodedName := alias.value;
        decodedBytes := Utf8.Encode(decodedName);
        if !remove {
          if ea.value[0] != ALIAS_VALUE_VERSION {
            return false;
          }
          decodedValue := ea.value[1..];
        }
      } else {
        decodedName := FromLatin1(ea.name);
        var validatedName := DirectName(decodedName);
        DirectNameOnly(ea.name);
        if validatedName != Some(ea.name) {
          return false;
        }
        DirectIsUtf8(decodedName);
        decodedBytes := ea.name;
        decodedValue := ea.value;
      }
      if decodedBytes in critical {
        return false;
      }
      mutations := mutations + [XattrMutation(decodedName, decodedValue, remove)];
      policyMutations := policyMutations + [PolicyMutation(decodedName, remove, aliased)];
      assert Asks(ea, critical, XattrMutation(decodedName, decodedValue, remove), aliased);
      return true;
    }
  }

  lemma DirectNameOnly(wire: seq<Byte>)
    ensures forall n :: DirectName(n) == Some(wire) ==> n == FromLatin1(wire)
  {
  }

  /** A direct name is ASCII, so its UTF-8 form is the name itself. */
  lemma DirectIsUtf8(name: string)
    requires DirectName(name).Some?
    ensures DirectName(name) == Some(Utf8.Encode(name))
  {
    var ascii := Latin1(name);
    forall i | 0 <= i < |name|
      ensures name[i] as int < 0x80
    {
      assert IsDirectByte(ascii[i]);
      assert FromLatin1(ascii)[i] == name[i];
    }
    AsciiIsUtf8(name);
  }

  lemma {:induction false} AsciiIsUtf8(text: string)
    requires forall i :: 0 <= i < |text| ==> text[i] as int < 0x80
    ensures Utf8.Encode(text) == Latin1(text)
  {
    if text != [] {
      AsciiIsUtf8(text[1..]);
      assert Latin1(text) == [text[0] as int] + Latin1(text[1..]);
    }
  }

  // Reporting attributes to Windows

  /** The attributes Windows may see at all. */
  predicate Reportable(name: string, critical: set<seq<Byte>>) {
    var bytes := Utf8.Encode(name);
    bytes != [] && |bytes| <= MAX_NAME_BYTES && 0 !in bytes && bytes !in critical
  }

  function Reported(attributes: seq<Xattr>, critical: set<seq<Byte>>): (kept: seq<Xattr>)
  {
    if attributes == [] then []
    else
      (if Reportable(attributes[0].name, critical) then [attributes[0]] else [])
      + Reported(attributes[1..], critical)
  }

  /** Reported are the attributes whose name has 1 to 127 bytes, none of them zero, and is not critical, in
      the order in which they come. */
  lemma {:induction false} ReportedAre(a: seq<Xattr>, b: seq<Xattr>, one: Xattr, critical: set<seq<Byte>>)
    ensures Reported(a + b, critical) == Reported(a, critical) + Reported(b, critical)
    ensures Reported([one], critical) ==
            if && 1 <= |Utf8.Encode(one.name)| <= 127
               && 0 !in Utf8.Encode(one.name) && Utf8.Encode(one.name) !in critical
            then [one] else []
  {
    hide Utf8.Encode;
    ReportedJoins(a, b, critical);
    assert [one][1..] == [];
  }

  lemma {:induction false} ReportedMembers(attributes: seq<Xattr>, critical: set<seq<Byte>>)
    ensures forall a :: a in Reported(attributes, critical) <==> a in attributes && Reportable(a.name, critical)
  {
    hide Reportable;
    if attributes != [] {
      ReportedMembers(attributes[1..], critical);
      assert attributes == [attributes[0]] + attributes[1..];
    }
  }

  lemma ReportedStep(first: Xattr, rest: seq<Xattr>, critical: set<seq<Byte>>)
    ensures Reported([first] + rest, critical) ==
            (if Reportable(first.name, critical) then [first] else []) + Reported(rest, critical)
  {
    hide Reportable;
    assert ([first] + rest)[1..] == rest;
  }

  lemma {:induction false} ReportedJoins(a: seq<Xattr>, b: seq<Xattr>, critical: set<seq<Byte>>)
    ensures Reported(a + b, critical) == Reported(a, critical) + Reported(b, critical)
  {
    hide Reportable;
    if a == [] {
      assert a + b == b;
    } else {
      hide Reported;
      var first, rest := a[0], a[1..];
      ReportedJoins(rest, b, critical);
      ReportedStep(first, rest, critical);
      ReportedStep(first, rest + b, critical);
      assert a == [first] + rest && a + b == [first] + (rest + b);
      Regroup(if Reportable(first.name, critical) then [first] else [], Reported(rest, critical), Reported(b, critical));
    }
  }

  function Names(attributes: seq<Xattr>): (names: seq<string>)
    ensures |names| == |attributes|
    ensures forall i :: 0 <= i < |names| ==> names[i] == attributes[i].name
  {
    seq(|attributes|, i requires 0 <= i < |attributes| => attributes[i].name)
  }

  /** The attribute goes by its own name: it is a direct name and no other attribute in `names`
      differs from it only by letter case. */
  ghost predicate GoesDirect(names: seq<string>, fold: string -> string, name: string) {
    DirectName(name).Some? && !Collides(names, fold, fold(name))
  }

  ghost function Wire(names: seq<string>, fold: string -> string, a: Xattr): EaRecord {
    if GoesDirect(names, fold, a.name)
    then EaRecord(0, DirectName(a.name).value, a.value)
    else EaRecord(0, EncodeAlias(a.name), [ALIAS_VALUE_VERSION] + a.value)
  }

  predicate FitsRecord(ea: EaRecord) {
    |ea.name| <= 255 && |ea.value| <= UINT16_MAX
  }

  ghost function Prepared(names: seq<string>, fold: string -> string, kept: seq<Xattr>): seq<EaRecord> {
    if kept == [] then []
    else
      var ea := Wire(names, fold, kept[|kept| - 1]);
      Prepared(names, fold, kept[..|kept| - 1]) + (if FitsRecord(ea) then [ea] else [])
  }

  function RecordFor(collisions: set<string>, fold: string -> string, a: Xattr): EaRecord {
    var direct := DirectName(a.name);
    if direct.None? || fold(a.name) in collisions
    then EaRecord(0, EncodeAlias(a.name), [ALIAS_VALUE_VERSION] + a.value)
    else EaRecord(0, direct.value, a.value)
  }

  /** The records of `getEa`, before they are put in order. */
  method PrepareRecords(attributes: seq<Xattr>, critical: set<seq<Byte>>, fold: string -> string)
    returns (records: seq<EaRecord>)
    ensures var kept := Reported(attributes, critical);
            records == Prepared(Names(kept), fold, kept)
  {
    var kept := Reported(attributes, critical);
    var names := Names(kept);
    var collisions := CollisionKeys(names, fold);
    records := [];
    var i := 0;
    while i < |kept|
      invariant 0 <= i <= |kept|
      invariant records == Prepared(names, fold, kept[..i])
    {
      var ea := RecordFor(collisions, fold, kept[i]);
      RecordIsWire(collisions, names, fold, kept[i]);
      PreparedOneMore(names, fold, kept, i);
      if FitsRecord(ea) {
        records := records + [ea];
      }
      i := i + 1;
    }
    assert kept[..i] == kept;
  }

  lemma RecordIsWire(collisions: set<string>, names: seq<string>, fold: string -> string, a: Xattr)
    requires fold(a.name) in collisions <==> Collides(names, fold, fold(a.name))
    ensures RecordFor(collisions, fold, a) == Wire(names, fold, a)
  {
  }

  lemma PreparedOneMore(names: seq<string>, fold: string -> string, kept: seq<Xattr>, i: nat)
    requires i < |kept|
    ensures Prepared(names, fold, kept[..i + 1]) == Prepared(names, fold, kept[..i])
            + (if FitsRecord(Wire(names, fold, kept[i])) then [Wire(names, fold, kept[i])] else [])
  {
    assert kept[..i + 1][..i] == kept[..i];
  }

  // What the two directions promise together

  /** An alias is at most 215 bytes, so no reportable name is too long for its record. */
  lemma WireNameFits(names: seq<string>, critical: set<seq<Byte>>, fold: string -> string, a: Xattr)
    requires Reportable(a.name, critical)
    ensures |Wire(names, fold, a).name| <= 215
    ensures FitsRecord(Wire(names, fold, a)) <==>
            |a.value| <= if GoesDirect(names, fold, a.name) then 65535 else 65534
  {
    Base32.EncodedLength(Base32.Octets(Utf8.Encode(a.name)));
  }

  /** Feeding a reported record back asks for the attribute it came from, as a set operation,
      exactly when its wire value is not empty: an empty value under a direct name asks for
      removal instead. */
  lemma ReportedRecordReadsBack(names: seq<string>, critical: set<seq<Byte>>, fold: string -> string, a: Xattr)
    requires Reportable(a.name, critical)
    ensures var direct := GoesDirect(names, fold, a.name);
            Asks(Wire(names, fold, a), critical, XattrMutation(a.name, a.value, direct && a.value == []), !direct)
  {
    if GoesDirect(names, fold, a.name) {
      DirectIsUtf8(a.name);
    } else {
      AliasIsUpper(a.name);
      SplitAlias(EncodeAlias(a.name), a.name);
      NonEmptyEncodings();
      assert ([ALIAS_VALUE_VERSION] + a.value)[1..] == a.value;
    }
  }

  /** A record asks for one thing only. */
  lemma AsksOnce(ea: EaRecord, critical: set<seq<Byte>>, m: XattrMutation, n: XattrMutation, p: bool, q: bool)
    requires Asks(ea, critical, m, p) && Asks(ea, critical, n, q)
    ensures m == n && p == q
  {
    if p {
      AliasInjective(m.name, n.name);
    } else {
      DirectNameOnly(ea.name);
    }
  }

  /** Case keys that identify ASCII names differing only in letter case; Unicode case folding does. */
  ghost predicate FoldsAscii(fold: string -> string) {
    forall a, b | DirectName(a).Some? && DirectName(b).Some? ::
      Base32.Upper(Latin1(a)) == Base32.Upper(Latin1(b)) ==> fold(a) == fold(b)
  }

  /** Windows sees one name per attribute, even ignoring ASCII case. */
  lemma WireNamesDistinct(names: seq<string>, fold: string -> string, a: Xattr, b: Xattr)
    requires FoldsAscii(fold)
    requires a.name in names && b.name in names && a.name != b.name
    ensures Base32.Upper(Wire(names, fold, a).name) != Base32.Upper(Wire(names, fold, b).name)
  {
    var directA, directB := GoesDirect(names, fold, a.name), GoesDirect(names, fold, b.name);
    AliasIsUpper(a.name);
    AliasIsUpper(b.name);
    if directA && directB {
      assert fold(a.name) == fold(b.name) ==> Collides(names, fold, fold(a.name));
    } else if directA {
      SplitAlias(Latin1(a.name), b.name);
    } else if directB {
      SplitAlias(Latin1(b.name), a.name);
    } else if EncodeAlias(a.name) == EncodeAlias(b.name) {
      AliasInjective(a.name, b.name);
    }
  }

  // Writing back everything that was reported

  ghost function WriteBack(names: seq<string>, fold: string -> string, kept: seq<Xattr>): (ms: seq<PolicyMutation>)
    ensures |ms| == |kept|
    ensures forall i :: 0 <= i < |kept| ==>
              ms[i] == PolicyMutation(kept[i].name, false, !GoesDirect(names, fold, kept[i].name))
  {
    seq(|kept|, i requires 0 <= i < |kept| =>
      PolicyMutation(kept[i].name, false, !GoesDirect(names, fold, kept[i].name)))
  }

  /** Setting every reported attribute again is accepted exactly when no attribute reported under
      its direct name has an other-case twin among all attributes. `setEa` validates against every
      name, `getEa` looks for collisions only among the reported ones. */
  lemma WriteBackAccepted(attributes: seq<Xattr>, critical: set<seq<Byte>>, fold: string -> string)
    ensures var kept := Reported(attributes, critical);
            var names := Names(kept);
            BatchAccepted(Names(attributes), fold, WriteBack(names, fold, kept)) <==>
            forall a :: a in kept && GoesDirect(names, fold, a.name) ==>
              !OtherCaseExists(Names(attributes), fold, a.name)
  {
    var kept := Reported(attributes, critical);
    ReportedMembers(attributes, critical);
    hide Reported;
    var names, all := Names(kept), Names(attributes);
    var ms := WriteBack(names, fold, kept);
    forall i | 0 <= i < |ms|
      ensures ms[i].name in all
    {
      assert kept[i] in attributes;
      var j :| 0 <= j < |attributes| && attributes[j] == kept[i];
      assert all[j] == ms[i].name;
    }
    SettingExisting(all, fold, ms);
    forall i | 0 <= i < |ms|
      ensures TurnAccepted(all, fold, ms[i]) <==>
              (GoesDirect(names, fold, kept[i].name) ==> !OtherCaseExists(all, fold, kept[i].name))
    {
    }
    forall a | a in kept
      ensures exists i :: 0 <= i < |ms| && kept[i] == a
    {
    }
  }

  // Feeding everything that was reported back

  /** The attributes that have a record. */
  ghost function Fitting(names: seq<string>, fold: string -> string, kept: seq<Xattr>): (fitting: seq<Xattr>)
    ensures forall a :: a in fitting <==> a in kept && FitsRecord(Wire(names, fold, a))
  {
    if kept == [] then []
    else
      var front, last := kept[..|kept| - 1], kept[|kept| - 1];
      assert kept == front + [last];
      Fitting(names, fold, front) + (if FitsRecord(Wire(names, fold, last)) then [last] else [])
  }

  /** The mutation that feeding an attribute's record back asks for. */
  ghost function ReadBack(names: seq<string>, fold: string -> string, a: Xattr): XattrMutation {
    XattrMutation(a.name, a.value, GoesDirect(names, fold, a.name) && a.value == [])
  }

  lemma {:induction false} PreparedAreWires(names: seq<string>, fold: string -> string, kept: seq<Xattr>)
    ensures var fitting := Fitting(names, fold, kept);
            && |Prepared(names, fold, kept)| == |fitting|
            && forall i :: 0 <= i < |fitting| ==> Prepared(names, fold, kept)[i] == Wire(names, fold, fitting[i])
  {
    hide Wire, FitsRecord;
    if kept != [] {
      PreparedAreWires(names, fold, kept[..|kept| - 1]);
    }
  }

  ghost predicate DistinctNames(attributes: seq<Xattr>) {
    forall i, j :: 0 <= i < j < |attributes| ==> attributes[i].name != attributes[j].name
  }

  lemma {:induction false} FittingIsDistinct(names: seq<string>, fold: string -> string, kept: seq<Xattr>)
    requires DistinctNames(kept)
    ensures DistinctNames(Fitting(names, fold, kept))
  {
    hide Wire, FitsRecord;
    if kept != [] {
      var front, last := kept[..|kept| - 1], kept[|kept| - 1];
      FittingIsDistinct(names, fold, front);
      var rest := Fitting(names, fold, front);
      forall a | a in rest
        ensures a.name != last.name
      {
        var k :| 0 <= k < |front| && front[k] == a;
        assert kept[k] == a;
      }
    }
  }

  lemma {:induction false} ReportedIsDistinct(attributes: seq<Xattr>, critical: set<seq<Byte>>)
    requires DistinctNames(attributes)
    ensures DistinctNames(Reported(attributes, critical))
  {
    hide Reportable;
    if attributes != [] {
      var rest := Reported(attributes[1..], critical);
      ReportedMembers(attributes[1..], critical);
      assert DistinctNames(attributes[1..]);
      ReportedIsDistinct(attributes[1..], critical);
      forall a | a in rest
        ensures a.name != attributes[0].name
      {
        var k :| 0 <= k < |attributes[1..]| && attributes[1..][k] == a;
        assert attributes[k + 1] == a;
      }
    }
  }

  /** The names that Windows sees are pairwise different, even ignoring ASCII case. */
  lemma RecordsAreDistinct(attributes: seq<Xattr>, critical: set<seq<Byte>>, fold: string -> string)
    requires DistinctNames(attributes) && FoldsAscii(fold)
    ensures var kept := Reported(attributes, critical);
            var records := Prepared(Names(kept), fold, kept);
            forall i, j :: 0 <= i < j < |records| ==> Base32.Upper(records[i].name) != Base32.Upper(records[j].name)
  {
    hide Wire, FoldsAscii, Prepared, Reported, FitsRecord, Names, Fitting;
    var kept := Reported(attributes, critical);
    var names := Names(kept);
    var fitting := Fitting(names, fold, kept);
    ReportedIsDistinct(attributes, critical);
    FittingIsDistinct(names, fold, kept);
    PreparedAreWires(names, fold, kept);
    forall i, j | 0 <= i < j < |fitting|
      ensures Base32.Upper(Wire(names, fold, fitting[i]).name) != Base32.Upper(Wire(names, fold, fitting[j]).name)
    {
      NameOf(kept, fitting[i]);
      NameOf(kept, fitting[j]);
      WireNamesDistinct(names, fold, fitting[i], fitting[j]);
    }
  }

  lemma NameOf(kept: seq<Xattr>, a: Xattr)
    requires a in kept
    ensures a.name in Names(kept)
  {
    var k :| 0 <= k < |kept| && kept[k] == a;
    assert Names(kept)[k] == a.name;
  }

  /** Every record of `getEa` is accepted by `setEa`, and together they ask for exactly the reported
      attributes that fit a record, each with its own value; only an empty value under a direct name asks
      for removal. */
  method ReportAndCollect(attributes: seq<Xattr>, critical: set<seq<Byte>>, fold: string -> string)
    returns (ok: bool, mutations: seq<XattrMutation>)
    ensures ok
    ensures var kept := Reported(attributes, critical);
            var fitting := Fitting(Names(kept), fold, kept);
            && |mutations| == |fitting|
            && forall i :: 0 <= i < |fitting| ==> mutations[i] == ReadBack(Names(kept), fold, fitting[i])
    ensures var names := Names(Reported(attributes, critical));
            forall a ::
              (&& a in attributes && 1 <= |Utf8.Encode(a.name)| <= 127
               && 0 !in Utf8.Encode(a.name) && Utf8.Encode(a.name) !in critical
               && |a.value| <= if GoesDirect(names, fold, a.name) then 65535 else 65534) <==>
                a in attributes && XattrMutation(a.name, a.value, GoesDirect(names, fold, a.name) && a.value == []) in mutations
  {
    hide Wire, Prepared, Asks, FitsRecord, Names, Fitting, Reported, Reportable, GoesDirect;
    var records := PrepareRecords(attributes, critical, fold);
    ghost var kept := Reported(attributes, critical);
    ghost var names := Names(kept);
    ghost var fitting := Fitting(names, fold, kept);
    PreparedAreWires(names, fold, kept);
    ReportedMembers(attributes, critical);
    var collector := new EaMutationCollector();
    ok := true;
    var i := 0;
    while i < |records|
      invariant i <= |records| && ok && |collector.mutations| == i
      invariant forall k :: 0 <= k < i ==> collector.mutations[k] == ReadBack(names, fold, fitting[k])
    {
      assert fitting[i] in fitting;
      ReportedRecordReadsBack(names, critical, fold, fitting[i]);
      assert Asks(records[i], critical, ReadBack(names, fold, fitting[i]), !GoesDirect(names, fold, fitting[i].name));
      var accepted := collector.Collect(records[i], critical);
      ok := ok && accepted;
      i := i + 1;
    }
    mutations := collector.mutations;
    forall a | a in attributes
      ensures (&& 1 <= |Utf8.Encode(a.name)| <= 127 && 0 !in Utf8.Encode(a.name) && Utf8.Encode(a.name) !in critical
               && |a.value| <= if GoesDirect(names, fold, a.name) then 65535 else 65534) <==>
              XattrMutation(a.name, a.value, GoesDirect(names, fold, a.name) && a.value == []) in mutations
    {
      ComesBack(attributes, critical, fold, mutations, a);
    }
  }

  lemma ComesBack(attributes: seq<Xattr>, critical: set<seq<Byte>>, fold: string -> string, mutations: seq<XattrMutation>, a: Xattr)
    requires var kept := Reported(attributes, critical);
             var fitting := Fitting(Names(kept), fold, kept);
             && |mutations| == |fitting|
             && forall i :: 0 <= i < |fitting| ==> mutations[i] == ReadBack(Names(kept), fold, fitting[i])
    requires a in attributes
    ensures var names := Names(Reported(attributes, critical));
            (&& 1 <= |Utf8.Encode(a.name)| <= 127 && 0 !in Utf8.Encode(a.name) && Utf8.Encode(a.name) !in critical
             && |a.value| <= if GoesDirect(names, fold, a.name) then 65535 else 65534) <==>
            XattrMutation(a.name, a.value, GoesDirect(names, fold, a.name) && a.value == []) in mutations
  {
    hide GoesDirect, Wire, Utf8.Encode, FitsRecord, Names, Fitting, Reported;
    var kept := Reported(attributes, critical);
    var names := Names(kept);
    var fitting := Fitting(names, fold, kept);
    ReportedMembers(attributes, critical);
    if Reportable(a.name, critical) {
      WireNameFits(names, critical, fold, a);
    }
    if a in fitting {
      var i :| 0 <= i < |fitting| && fitting[i] == a;
      assert mutations[i] == ReadBack(names, fold, a);
    }
    var m := XattrMutation(a.name, a.value, GoesDirect(names, fold, a.name) && a.value == []);
    if m in mutations {
      var i :| 0 <= i < |mutations| && mutations[i] == m;
      assert fitting[i] == a;
    }
  }
}
