/** Concrete inputs: what the CIDR check does with typical and edge-case texts.
    Each accepted text is read through `CanonicalTextRange` or
    `RangeOfWellFormed`; each rejected one by following `GetCidrRange` to the
    check that fails. */
module CidrCases {
  import opened Wrappers
  import opened JsNumbers
  import opened JsStrings
  import opened Validation

  /** The range of a canonical text, once its block has been worked out. */
  lemma Accepted(text: string, octets: seq<nat>, prefix: nat, start: int, end: int)
    requires |octets| == 4 && (forall i :: 0 <= i < 4 ==> octets[i] <= 255) && prefix <= 32
    requires text == CidrText(octets, prefix)
    requires start == ToInt32(BlockStart(Address(octets), HostBits(prefix)))
    requires end == ToInt32(BlockEnd(Address(octets), HostBits(prefix)))
    ensures GetCidrRange(text) == Some(CidrRange(start, end))
  {
    CanonicalTextRange(octets, prefix);
  }

  // Accepted blocks: the text, the block of its address, the range

  lemma Pow2Small()
    ensures Pow2(0) == 1 && Pow2(8) == 0x100
  {
  }

  lemma Pow2Sixteen()
    ensures Pow2(16) == 0x1_0000
  {
    Pow2Small();
    Pow2Add(8, 8);
  }

  lemma Pow2TwentyFour()
    ensures Pow2(24) == 0x100_0000
  {
    Pow2Sixteen();
    Pow2Add(16, 8);
  }

  lemma RangeZeroSlashThirtyTwo()
    ensures GetCidrRange("0.0.0.0/32") == Some(CidrRange(0, 0))
  {
    Accepted("0.0.0.0/32", [0, 0, 0, 0], 32, 0, 0);
  }

  /** `0.0.0.0/0` is the single address 0, not the whole address space. */
  lemma RangeSlashZero()
    ensures GetCidrRange("0.0.0.0/0") == Some(CidrRange(0, 0))
  {
    PrefixZeroIsPrefixThirtyTwo("0.0.0.0");
    assert "0.0.0.0" + "/0" == "0.0.0.0/0";
    assert "0.0.0.0" + "/32" == "0.0.0.0/32";
    RangeZeroSlashThirtyTwo();
  }

  lemma BlockSlashEight()
    ensures BlockStart(Address([10, 0, 0, 0]), HostBits(8)) == 0xa00_0000
    ensures BlockEnd(Address([10, 0, 0, 0]), HostBits(8)) == 0xaff_ffff
  {
    Pow2TwentyFour();
  }

  lemma RangeSlashEight()
    ensures GetCidrRange("10.0.0.0/8") == Some(CidrRange(0xa00_0000, 0xaff_ffff))
  {
    BlockSlashEight();
    Accepted("10.0.0.0/8", [10, 0, 0, 0], 8, 0xa00_0000, 0xaff_ffff);
  }

  lemma RangeTenSlashTwentyFour()
    ensures GetCidrRange("10.0.0.0/24") == Some(CidrRange(0xa00_0000, 0xa00_00ff))
  {
    Accepted("10.0.0.0/24", [10, 0, 0, 0], 24, 0xa00_0000, 0xa00_00ff);
  }

  /** A base address with host bits set is accepted and masked to its block. */
  lemma RangeUnalignedBase()
    ensures GetCidrRange("10.0.0.5/24") == Some(CidrRange(0xa00_0000, 0xa00_00ff))
  {
    Accepted("10.0.0.5/24", [10, 0, 0, 5], 24, 0xa00_0000, 0xa00_00ff);
  }

  lemma RangeNextSlashTwentyFour()
    ensures GetCidrRange("10.0.1.0/24") == Some(CidrRange(0xa00_0100, 0xa00_01ff))
  {
    Accepted("10.0.1.0/24", [10, 0, 1, 0], 24, 0xa00_0100, 0xa00_01ff);
  }

  lemma RangeInnerSlashTwentyFour()
    ensures GetCidrRange("10.1.2.0/24") == Some(CidrRange(0xa01_0200, 0xa01_02ff))
  {
    Accepted("10.1.2.0/24", [10, 1, 2, 0], 24, 0xa01_0200, 0xa01_02ff);
  }

  lemma RangeHostOne()
    ensures GetCidrRange("10.0.0.1/32") == Some(CidrRange(0xa00_0001, 0xa00_0001))
  {
    Accepted("10.0.0.1/32", [10, 0, 0, 1], 32, 0xa00_0001, 0xa00_0001);
  }

  lemma RangeHostTwo()
    ensures GetCidrRange("10.0.0.2/32") == Some(CidrRange(0xa00_0002, 0xa00_0002))
  {
    Accepted("10.0.0.2/32", [10, 0, 0, 2], 32, 0xa00_0002, 0xa00_0002);
  }

  lemma BlockUpperHalf()
    ensures BlockStart(Address([192, 168, 0, 0]), HostBits(16)) == 0xc0a8_0000
    ensures BlockEnd(Address([192, 168, 0, 0]), HostBits(16)) == 0xc0a8_ffff
  {
    Pow2Sixteen();
  }

  /** A block in the upper half of the address space has negative signed ends. */
  lemma RangeUpperHalf()
    ensures GetCidrRange("192.168.0.0/16") == Some(CidrRange(-0x3f58_0000, -0x3f57_0001))
  {
    BlockUpperHalf();
    Accepted("192.168.0.0/16", [192, 168, 0, 0], 16, -0x3f58_0000, -0x3f57_0001);
  }

  // Overlap

  /** Prefix 0 does not cover every address: `0.0.0.0/0` misses `10.0.0.0/8`. */
  lemma SlashZeroMissesTenSlashEight()
    ensures !DoCidrOverlap("0.0.0.0/0", "10.0.0.0/8")
  {
    RangeSlashZero();
    RangeSlashEight();
  }

  lemma SingleHosts()
    ensures DoCidrOverlap("10.0.0.1/32", "10.0.0.1/32")
    ensures !DoCidrOverlap("10.0.0.1/32", "10.0.0.2/32")
  {
    RangeHostOne();
    RangeHostTwo();
  }

  lemma NestedAndNeighbouringBlocks()
    ensures DoCidrOverlap("10.0.0.0/8", "10.1.2.0/24")
    ensures !DoCidrOverlap("10.0.0.0/24", "10.0.1.0/24")
  {
    RangeSlashEight();
    RangeInnerSlashTwentyFour();
    RangeTenSlashTwentyFour();
    RangeNextSlashTwentyFour();
  }

  lemma UpperHalfOverlaps()
    ensures DoCidrOverlap("192.168.0.0/16", "192.168.0.0/16")
    ensures !DoCidrOverlap("192.168.0.0/16", "10.0.0.0/8")
  {
    RangeUpperHalf();
    RangeSlashEight();
  }

  // Rejected texts

  lemma EmptyTextRejected()
    ensures GetCidrRange("") == None && !DoCidrOverlap("", "10.0.0.0/8")
  {
  }

  /** Text that does not split on `/` into exactly two parts is rejected. */
  lemma SlashCount(text: string, parts: seq<string>)
    requires text == Join(parts, '/') && text != []
    requires |parts| >= 1 && |parts| != 2
    requires forall i :: 0 <= i < |parts| ==> '/' !in parts[i]
    ensures GetCidrRange(text) == None
  {
    SplitJoin(parts, '/');
  }

  /** A prefix `parseInt` cannot read, or reads outside [0, 32], is rejected. */
  lemma PrefixRejected(text: string, fields: seq<string>, prefix: string)
    requires text == Join(fields, '.') + "/" + prefix
    requires |fields| >= 1 && '/' !in prefix
    requires forall i :: 0 <= i < |fields| ==> '.' !in fields[i] && '/' !in fields[i]
    requires ParseInt(prefix).None? || ParseInt(prefix).value < 0 || ParseInt(prefix).value > 32
    ensures GetCidrRange(text) == None
  {
    SplitsOfParts(fields, prefix);
  }

  /** With an acceptable prefix, an address that is not four accepted fields is rejected. */
  lemma FieldsRejected(text: string, fields: seq<string>, prefix: string)
    requires text == Join(fields, '.') + "/" + prefix
    requires |fields| >= 1 && '/' !in prefix
    requires forall i :: 0 <= i < |fields| ==> '.' !in fields[i] && '/' !in fields[i]
    requires |fields| != 4 || exists i :: 0 <= i < |fields| && OctetRejected(fields[i])
    ensures GetCidrRange(text) == None
  {
    SplitsOfParts(fields, prefix);
  }

  lemma ParseThirtyThree()
    ensures ParseInt("33") == Some(33)
  {
    ParseIntNumeral("", "", "33", "");
    assert "" + "" + "33" + "" == "33";
  }

  lemma ParseMinusOne()
    ensures ParseInt("-1") == Some(-1)
  {
    ParseIntNumeral("", "-", "1", "");
    assert "" + "-" + "1" + "" == "-1";
  }

  lemma ParseOctets()
    ensures ParseInt("256") == Some(256) && ParseInt("") == None
  {
    ParseIntDecimal(256, "");
    assert Decimal(256) + "" == "256";
  }

  lemma NoSlashRejected()
    ensures GetCidrRange("not-a-cidr") == None
  {
    SlashCount("not-a-cidr", ["not-a-cidr"]);
  }

  lemma TwoSlashesRejected()
    ensures GetCidrRange("10.0.0.0/24/8") == None
  {
    SlashCount("10.0.0.0/24/8", ["10.0.0.0", "24", "8"]);
  }

  lemma PrefixAboveRangeRejected()
    ensures GetCidrRange("10.0.0.0/33") == None
  {
    ParseThirtyThree();
    PrefixRejected("10.0.0.0/33", ["10", "0", "0", "0"], "33");
  }

  lemma NegativePrefixRejected()
    ensures GetCidrRange("10.0.0.0/-1") == None
  {
    ParseMinusOne();
    PrefixRejected("10.0.0.0/-1", ["10", "0", "0", "0"], "-1");
  }

  lemma OctetAboveRangeRejected()
    ensures GetCidrRange("256.0.0.0/24") == None
  {
    ParseOctets();
    assert OctetRejected(["256", "0", "0", "0"][0]);
    FieldsRejected("256.0.0.0/24", ["256", "0", "0", "0"], "24");
  }

  lemma EmptyFieldRejected()
    ensures GetCidrRange("10..0.0/8") == None
  {
    ParseOctets();
    assert OctetRejected(["10", "", "0", "0"][1]);
    FieldsRejected("10..0.0/8", ["10", "", "0", "0"], "8");
  }

  lemma ThreeFieldsRejected()
    ensures GetCidrRange("10.0.0/8") == None
  {
    FieldsRejected("10.0.0/8", ["10", "0", "0"], "8");
  }

  // Lenient fields

  lemma ParseTrailingLetter()
    ensures ParseInt("10a") == Some(10)
  {
    ParseIntNumeral("", "", "10", "a");
    assert "" + "" + "10" + "a" == "10a";
  }

  lemma ParseZero()
    ensures ParseInt("0") == Some(0)
  {
    ParseIntNumeral("", "", "0", "");
    assert "" + "" + "0" + "" == "0";
  }

  lemma ParseTrailingPrefix()
    ensures ParseInt("24x") == Some(24)
  {
    ParseIntNumeral("", "", "24", "x");
    assert "" + "" + "24" + "x" == "24x";
  }

  /** A dotted field `parseInt` reads as the octet `v`. */
  predicate OctetField(f: string, v: int)
  {
    '.' !in f && '/' !in f && ParseInt(f) == Some(v) && 0 <= v <= 255
  }

  /** The address read from four fields is the address of the octets
      `parseInt` reads from them. */
  lemma AddressOfFields(fields: seq<string>, octets: seq<int>)
    requires |fields| == 4 && |octets| == 4
    requires forall i :: 0 <= i < 4 ==> !OctetRejected(fields[i])
    requires ParseInt(fields[0]) == Some(octets[0]) && ParseInt(fields[1]) == Some(octets[1])
    requires ParseInt(fields[2]) == Some(octets[2]) && ParseInt(fields[3]) == Some(octets[3])
    ensures Address(OctetValues(fields)) == Address(octets)
  {
    var r := OctetValues(fields);
    assert r[0] == octets[0] && r[1] == octets[1] && r[2] == octets[2] && r[3] == octets[3];
  }

  /** The range of a text made of four octet fields and a prefix, once
      `parseInt` has read its numbers and the block of its address has been
      worked out. */
  lemma AcceptedFields(text: string, f0: string, f1: string, f2: string, f3: string, prefix: string,
                       octets: seq<int>, ip: int, p: int, start: int, end: int)
    requires text == f0 + "." + f1 + "." + f2 + "." + f3 + "/" + prefix
    requires |octets| == 4
    requires OctetField(f0, octets[0]) && OctetField(f1, octets[1])
    requires OctetField(f2, octets[2]) && OctetField(f3, octets[3])
    requires '/' !in prefix && ParseInt(prefix) == Some(p) && 0 <= p <= 32
    requires ip == Address(octets)
    requires start == ToInt32(BlockStart(ip, HostBits(p))) && end == ToInt32(BlockEnd(ip, HostBits(p)))
    ensures GetCidrRange(text) == Some(CidrRange(start, end))
  {
    var fields := [f0, f1, f2, f3];
    assert WellFormedCidr(text, fields, prefix) by {
      JoinFour(fields, '.');
    }
    var h := HostBits(p);
    assert GetCidrRange(text) == Some(CidrRange(ToInt32(BlockStart(ip, h)), ToInt32(BlockEnd(ip, h)))) by {
      RangeOfWellFormed(text, fields, prefix);
      AddressOfFields(fields, octets);
      assert HostBits(ParseInt(prefix).value) == h;
    }
  }

  lemma BlockOfTenSlashTwentyFour()
    ensures BlockStart(0xa00_0000, HostBits(24)) == 0xa00_0000
    ensures BlockEnd(0xa00_0000, HostBits(24)) == 0xa00_00ff
  {
    Pow2Small();
  }

  /** `parseInt` stops at the first non-digit, so characters after the number,
      in an octet or in the prefix, are accepted and ignored. */
  lemma TrailingCharactersAccepted()
    ensures GetCidrRange("10a.0.0.0/24x") == Some(CidrRange(0xa00_0000, 0xa00_00ff))
  {
    ParseTrailingLetter();
    ParseZero();
    ParseTrailingPrefix();
    BlockOfTenSlashTwentyFour();
    AcceptedFields("10a.0.0.0/24x", "10a", "0", "0", "0", "24x", [10, 0, 0, 0], 0xa00_0000, 24, 0xa00_0000, 0xa00_00ff);
  }
}
