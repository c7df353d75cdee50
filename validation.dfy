/** IPv4 CIDR blocks: `getCidrRange` turns `A.B.C.D/P` into the closed range
    of addresses it denotes, or `null`, and `doCidrOverlap` tells whether two
    blocks share an address.

    Everything follows the JavaScript as written: octets and prefix are read
    with the lenient `parseInt(_, 10)`, the mask is built with `<<`, whose
    shift count is taken modulo 32, and `start` and `end` are the signed 32-bit
    results of `&` and `|`. */
module Validation {
  import opened Wrappers
  import opened JsNumbers
  import opened JsStrings

  /** The `{ start, end }` object: both are signed 32-bit values. */
  datatype CidrRange = CidrRange(start: int, end: int)

  /** The test that rejects one dotted field of the address. */
  predicate OctetRejected(part: string)
  {
    var n := ParseInt(part);
    n.None? || n.value < 0 || n.value > 255
  }

  // ---------------------------------------------------------------------------
  // ipToLong

  /** The value of a sequence of bytes, most significant first, with no limit on its size. */
  function BigEndian(octets: seq<int>): int
  {
    if octets == [] then 0 else BigEndian(octets[..|octets| - 1]) * 256 + octets[|octets| - 1]
  }

  /** The address of four octets, most significant first: o0·2^24 + o1·2^16 + o2·2^8 + o3. */
  function Address(octets: seq<int>): int
    requires |octets| == 4
  {
    octets[0] * 0x100_0000 + octets[1] * 0x1_0000 + octets[2] * 0x100 + octets[3]
  }

  /** The numbers `parseInt` reads from accepted fields, in order. */
  function OctetValues(fields: seq<string>): (r: seq<int>)
    requires forall i :: 0 <= i < |fields| ==> !OctetRejected(fields[i])
    ensures |r| == |fields|
    ensures forall i :: 0 <= i < |r| ==> ParseInt(fields[i]) == Some(r[i]) && 0 <= r[i] <= 255
  {
    if fields == [] then []
    else
      var last := fields[|fields| - 1];
      assert !OctetRejected(last);
      OctetValues(fields[..|fields| - 1]) + [ParseInt(last).value]
  }

  /** The `reduce` of `ipToLong`: `(acc << 8) + octet`, starting from 0.
      Although `<<` wraps to a signed 32-bit value at every step, the fold
      keeps the low 32 bits of the big-endian value of the bytes. */
  function Reduce(octets: seq<int>): (r: int)
    requires forall i :: 0 <= i < |octets| ==> 0 <= octets[i] <= 255
    ensures ToUint32(r) == ToUint32(BigEndian(octets))
  {
    if octets == [] then 0
    else
      var init, octet := octets[..|octets| - 1], octets[|octets| - 1];
      var acc := Reduce(init);
      assert BigEndian(octets) == BigEndian(init) * 256 + octet;
      ReduceStep(acc, BigEndian(init), octet);
      ShiftLeft(acc, 8) + octet
  }

  /** One step of the fold: `(acc << 8) + octet` agrees in its low 32 bits
      with `big * 256 + octet` when `acc` and `big` do. */
  lemma ReduceStep(acc: int, big: int, octet: int)
    requires ToUint32(acc) == ToUint32(big)
    ensures ToUint32(ShiftLeft(acc, 8) + octet) == ToUint32(big * 256 + octet)
  {
    var t := ToInt32(acc);
    Int32SameBits(acc);
    assert ShiftLeft(acc, 8) == ToInt32(t * 256) by {
      assert ToUint32(8) % 32 == 8;
      assert Pow2(8) == 256;
    }
    Int32SameBits(t * 256);
    SameBitsAdd(ToInt32(t * 256), t * 256, octet);
    SameBitsShiftByte(t, big, octet);
  }

  /** `ipToLong(ip)`: the fields of `ip`, packed most significant first, as
      an unsigned 32-bit number. Its one caller passes only addresses whose
      every field `parseInt` reads as a number in [0, 255]. */
  function IpToLong(ip: string): (r: int)
    requires forall i :: 0 <= i < |Split(ip, '.')| ==> !OctetRejected(Split(ip, '.')[i])
    ensures r == BigEndian(OctetValues(Split(ip, '.'))) % TWO32
  {
    var octets := OctetValues(Split(ip, '.'));
    UnsignedShiftRightZero(Reduce(octets));
    UnsignedShiftRight(Reduce(octets), 0)
  }

  /** For a dotted quad `ipToLong` is o0·2^24 + o1·2^16 + o2·2^8 + o3, in [0, 2^32). */
  lemma DottedQuadAddress(fields: seq<string>)
    requires |fields| == 4
    requires forall i :: 0 <= i < 4 ==> '.' !in fields[i] && !OctetRejected(fields[i])
    ensures Split(Join(fields, '.'), '.') == fields
    ensures var ip := IpToLong(Join(fields, '.'));
      ip == Address(OctetValues(fields)) && 0 <= ip < TWO32
  {
    SplitJoin(fields, '.');
    var o := OctetValues(fields);
    BigEndianFour(o);
    var ip := IpToLong(Join(fields, '.'));
    assert ip == BigEndian(o) % TWO32;
    assert ip == BigEndian(o) by {
      assert ToUint32(BigEndian(o)) == BigEndian(o);
    }
  }

  lemma BigEndianFour(o: seq<int>)
    requires |o| == 4 && forall i :: 0 <= i < 4 ==> 0 <= o[i] <= 255
    ensures BigEndian(o) == Address(o)
    ensures 0 <= BigEndian(o) < TWO32
  {
    assert o[..1][..0] == [] && o[..2][..1] == o[..1] && o[..3][..2] == o[..2] && o[..4] == o;
    assert BigEndian(o[..1]) == o[0];
    assert BigEndian(o[..2]) == o[0] * 256 + o[1];
    assert BigEndian(o[..3]) == (o[0] * 256 + o[1]) * 256 + o[2];
  }

  // ---------------------------------------------------------------------------
  // getCidrRange

  /** `getCidrRange(cidr)`: the closed range of the block, or `null` (`None`)
      when the text is not a CIDR block that the checks accept. */
  function GetCidrRange(cidr: string): (r: Option<CidrRange>)
    ensures r.Some? ==> -TWO31 <= r.value.start <= r.value.end < TWO31
  {
    if cidr == [] then None
    else
      var parts := Split(cidr, '/');
      if |parts| != 2 then None
      else
        var ip := parts[0];
        var prefix := ParseInt(parts[1]);
        if prefix.None? || prefix.value < 0 || prefix.value > 32 then None
        else
          if AddressRejected(ip) then None
          else
            var ipLong, h := IpToLong(ip), HostBits(prefix.value);
            MaskedRangeIsBlock(ipLong, prefix.value);
            BlockInOneHalf(ipLong, h);
            Int32OfUint32(BlockStart(ipLong, h));
            Int32OfUint32(BlockEnd(ipLong, h));
            Some(MaskedRange(ipLong, prefix.value))
  }

  /** The basic format check of the address part: four dotted fields, none rejected. */
  predicate AddressRejected(ip: string)
  {
    var ipParts := Split(ip, '.');
    |ipParts| != 4 || exists i :: 0 <= i < |ipParts| && OctetRejected(ipParts[i])
  }

  /** The masking steps of `getCidrRange`: the mask `0xffffffff << (32 - prefix)`
      read unsigned, `start = ipLong & mask` and `end = start | (~mask >>> 0)`. */
  function MaskedRange(ipLong: int, prefix: int): (r: CidrRange)
    ensures -TWO31 <= r.start < TWO31 && -TWO31 <= r.end < TWO31
  {
    var mask := UnsignedShiftRight(ShiftLeft(0xffff_ffff, 32 - prefix), 0);
    var start := BitAnd(ipLong, mask);
    var end := BitOr(start, UnsignedShiftRight(BitNot(mask), 0));
    CidrRange(start, end)
  }

  /** A CIDR text the checks accept: four dotted fields, each read by
      `parseInt` as a number in [0, 255], one `/`, and a prefix read as a
      number in [0, 32]. Characters after the number in a field are allowed. */
  ghost predicate WellFormedCidr(cidr: string, fields: seq<string>, prefix: string)
  {
    && |fields| == 4
    && cidr == Join(fields, '.') + "/" + prefix
    && '/' !in prefix
    && (forall i :: 0 <= i < 4 ==> '.' !in fields[i] && '/' !in fields[i] && !OctetRejected(fields[i]))
    && ParseInt(prefix).Some? && 0 <= ParseInt(prefix).value <= 32
  }

  /** The number of host bits the mask leaves clear: `32 - prefix` taken
      modulo 32, as the shift does, so that prefix 0 leaves none. */
  function HostBits(prefix: int): (h: nat)
    requires 0 <= prefix <= 32
    ensures h < 32
    ensures 1 <= prefix ==> h == 32 - prefix
    ensures prefix == 0 ==> h == 0
  {
    (32 - prefix) % 32
  }

  /** First and last address of the aligned block of 2^h addresses holding `ip`. */
  function BlockStart(ip: int, h: nat): int
  {
    ip - ip % Pow2(h)
  }

  function BlockEnd(ip: int, h: nat): int
  {
    BlockStart(ip, h) + Pow2(h) - 1
  }

  /** The block holds the 2^h addresses that agree with `ip` on every bit
      above the low h: the base address need not be aligned. */
  lemma BlockIsSameNetwork(ip: int, h: nat, x: int)
    ensures BlockStart(ip, h) <= x <= BlockEnd(ip, h) <==> x / Pow2(h) == ip / Pow2(h)
    ensures BlockEnd(ip, h) - BlockStart(ip, h) + 1 == Pow2(h)
  {
    var p := Pow2(h);
    var q := ip / p;
    assert BlockStart(ip, h) == p * q;
    if p * q <= x <= p * q + p - 1 {
      DivModUnique(x, p, q, x - p * q);
    }
    if x / p == q {
      assert x == p * q + x % p;
    }
  }

  /** A block inside the 32-bit address space lies wholly in one half of it. */
  lemma BlockInOneHalf(ip: int, h: nat)
    requires 0 <= ip < TWO32 && h < 32
    ensures 0 <= BlockStart(ip, h) <= ip <= BlockEnd(ip, h) < TWO32
    ensures BlockStart(ip, h) < TWO31 <==> BlockEnd(ip, h) < TWO31
    ensures BlockStart(ip, h) % Pow2(h) == 0
  {
    var s := BlockStart(ip, h);
    ClearedBounds(ip, h);
    ClearedIsAligned(ip, h);
    Pow2Below32(h);
    AlignedBelowPow2(s, h, 32);
    if s < TWO31 {
      Pow2ThirtyTwo();
      AlignedBelowPow2(s, h, 31);
    }
  }

  /** Dotted fields and a prefix, joined, split back into the same parts. */
  lemma SplitsOfParts(fields: seq<string>, prefix: string)
    requires |fields| >= 1 && '/' !in prefix
    requires forall i :: 0 <= i < |fields| ==> '.' !in fields[i] && '/' !in fields[i]
    ensures Split(Join(fields, '.') + "/" + prefix, '/') == [Join(fields, '.'), prefix]
    ensures Split(Join(fields, '.'), '.') == fields
  {
    var addr := Join(fields, '.');
    NotInJoin(fields, '.', '/');
    assert Join([addr, prefix], '/') == addr + "/" + prefix;
    SplitJoin([addr, prefix], '/');
    SplitJoin(fields, '.');
  }

  /** The address text of a well-formed CIDR splits back into its fields. */
  lemma WellFormedSplits(cidr: string, fields: seq<string>, prefix: string)
    requires WellFormedCidr(cidr, fields, prefix)
    ensures Split(cidr, '/') == [Join(fields, '.'), prefix]
    ensures Split(Join(fields, '.'), '.') == fields
  {
    SplitsOfParts(fields, prefix);
  }

  /** The masking steps give the signed ends of the aligned block of
      2^HostBits(prefix) addresses holding the address. */
  lemma MaskedRangeIsBlock(ipLong: int, prefix: int)
    requires 0 <= ipLong < TWO32 && 0 <= prefix <= 32
    ensures var h := HostBits(prefix);
      MaskedRange(ipLong, prefix) == CidrRange(ToInt32(BlockStart(ipLong, h)), ToInt32(BlockEnd(ipLong, h)))
  {
    var h := HostBits(prefix);
    var mask := UnsignedShiftRight(ShiftLeft(0xffff_ffff, 32 - prefix), 0);
    assert mask == TWO32 - Pow2(h) by {
      PrefixMask(prefix);
    }
    var start := BitAnd(ipLong, mask);
    assert start == ToInt32(BlockStart(ipLong, h)) by {
      MaskedStart(ipLong, h);
    }
    assert BitOr(start, UnsignedShiftRight(BitNot(mask), 0)) == ToInt32(BlockEnd(ipLong, h)) by {
      MaskedEnd(ipLong, h);
    }
  }

  /** `ipLong & mask` is the first address of the block. */
  lemma MaskedStart(ipLong: int, h: nat)
    requires 0 <= ipLong < TWO32 && h < 32
    ensures BitAnd(ipLong, TWO32 - Pow2(h)) == ToInt32(BlockStart(ipLong, h))
  {
    AndWithMask(ipLong, h);
  }

  /** `start | (~mask >>> 0)` is the last address of the block. */
  lemma MaskedEnd(ipLong: int, h: nat)
    requires 0 <= ipLong < TWO32 && h < 32
    ensures BitOr(ToInt32(BlockStart(ipLong, h)), UnsignedShiftRight(BitNot(TWO32 - Pow2(h)), 0))
         == ToInt32(BlockEnd(ipLong, h))
  {
    var start, end := BlockStart(ipLong, h), BlockEnd(ipLong, h);
    var ones := UnsignedShiftRight(BitNot(TWO32 - Pow2(h)), 0);
    assert ones == Pow2(h) - 1 by {
      NotMask(h);
    }
    assert BitOr(ToInt32(start), Pow2(h) - 1) == ToInt32(end) by {
      BlockInOneHalf(ipLong, h);
      OrWithLowOnes(start, h, end);
    }
  }

  /** The mask `0xffffffff << (32 - prefix) >>> 0` has the top 32 - h bits set,
      h being the host bits. */
  lemma PrefixMask(prefix: int)
    requires 0 <= prefix <= 32
    ensures UnsignedShiftRight(ShiftLeft(0xffff_ffff, 32 - prefix), 0) == TWO32 - Pow2(HostBits(prefix))
  {
    ShiftAllOnes(32 - prefix);
    assert ToUint32(32 - prefix) % 32 == HostBits(prefix);
  }

  /** A well-formed CIDR gives the block of its address, its signed ends being
      those of the aligned block of 2^HostBits(prefix) addresses. */
  lemma RangeOfWellFormed(cidr: string, fields: seq<string>, prefix: string)
    requires WellFormedCidr(cidr, fields, prefix)
    ensures Split(Join(fields, '.'), '.') == fields
    ensures IpToLong(Join(fields, '.')) == Address(OctetValues(fields))
    ensures var ip := IpToLong(Join(fields, '.'));
            var h := HostBits(ParseInt(prefix).value);
      GetCidrRange(cidr) == Some(CidrRange(ToInt32(BlockStart(ip, h)), ToInt32(BlockEnd(ip, h))))
  {
    WellFormedSplits(cidr, fields, prefix);
    DottedQuadAddress(fields);
    var ip := IpToLong(Join(fields, '.'));
    assert !AddressRejected(Join(fields, '.'));
    MaskedRangeIsBlock(ip, ParseInt(prefix).value);
  }

  /** `getCidrRange` accepts exactly the well-formed CIDR texts; every other
      string, the empty one included, gives `null`. */
  lemma AcceptsExactlyWellFormed(cidr: string)
    ensures GetCidrRange(cidr).Some? <==> exists fields, prefix :: WellFormedCidr(cidr, fields, prefix)
  {
    if GetCidrRange(cidr).Some? {
      var parts := Split(cidr, '/');
      var fields := Split(parts[0], '.');
      JoinSplit(cidr, '/');
      JoinSplit(parts[0], '.');
      NotInSplit(parts[0], '.', '/');
      assert WellFormedCidr(cidr, fields, parts[1]);
    }
    if exists fields, prefix :: WellFormedCidr(cidr, fields, prefix) {
      var fields, prefix :| WellFormedCidr(cidr, fields, prefix);
      RangeOfWellFormed(cidr, fields, prefix);
    }
  }

  /** An accepted block, read unsigned, is the aligned block holding the base
      address; its signed ends lie in one half of the address space, so
      `start <= end` both signed and unsigned. */
  lemma AcceptedRangeIsBlock(cidr: string, fields: seq<string>, prefix: string)
    requires WellFormedCidr(cidr, fields, prefix)
    ensures Split(Join(fields, '.'), '.') == fields
    ensures var ip := IpToLong(Join(fields, '.'));
            var h := HostBits(ParseInt(prefix).value);
            var r := GetCidrRange(cidr);
      && r.Some?
      && ToUint32(r.value.start) == BlockStart(ip, h)
      && ToUint32(r.value.end) == BlockEnd(ip, h)
      && ToUint32(r.value.start) <= ip <= ToUint32(r.value.end)
      && (r.value.start < 0 <==> r.value.end < 0)
      && r.value.start <= r.value.end
  {
    RangeOfWellFormed(cidr, fields, prefix);
    var ip := IpToLong(Join(fields, '.'));
    var h := HostBits(ParseInt(prefix).value);
    BlockInOneHalf(ip, h);
    Int32OfUint32(BlockStart(ip, h));
    Int32OfUint32(BlockEnd(ip, h));
  }

  /** For prefix 1 to 32 the block holds exactly 2^(32-prefix) addresses. */
  lemma BlockSize(cidr: string, fields: seq<string>, prefix: string)
    requires WellFormedCidr(cidr, fields, prefix) && ParseInt(prefix).value >= 1
    ensures var r := GetCidrRange(cidr);
      r.Some? && ToUint32(r.value.end) - ToUint32(r.value.start) + 1 == Pow2(32 - ParseInt(prefix).value)
  {
    AcceptedRangeIsBlock(cidr, fields, prefix);
    var ip := IpToLong(Join(fields, '.'));
    BlockIsSameNetwork(ip, HostBits(ParseInt(prefix).value), ip);
  }

  /** The shift count 32 - 0 is 0 modulo 32: prefix 0 masks like prefix 32. */
  lemma MaskIgnoresPrefixZero(ipLong: int)
    ensures MaskedRange(ipLong, 0) == MaskedRange(ipLong, 32)
  {
    assert ToUint32(32) % 32 == 0 && ToUint32(0) % 32 == 0;
    ShiftCountModulo32(0xffff_ffff, 32 - 0, 32 - 32);
  }

  /** Prefix 0 shifts by 32 mod 32 = 0, so its mask is all ones: `/0` is the
      same single address as `/32`, not the whole address space. */
  lemma PrefixZeroIsPrefixThirtyTwo(addr: string)
    ensures GetCidrRange(addr + "/0") == GetCidrRange(addr + "/32")
  {
    var zero, all := addr + "/0", addr + "/32";
    assert zero == addr + "/" + "0" && all == addr + "/" + "32";
    SplitBeforePrefix(addr, "0");
    SplitBeforePrefix(addr, "32");
    var pieces := Split(addr, '/');
    if |pieces| == 1 {
      SameAddressPart(zero, all, pieces[0]);
    } else {
      assert |Split(zero, '/')| != 2 && |Split(all, '/')| != 2;
    }
  }

  /** Prefixes 0 and 32 after the same address part give the same result. */
  lemma SameAddressPart(zero: string, all: string, a: string)
    requires zero != [] && Split(zero, '/') == [a, "0"]
    requires all != [] && Split(all, '/') == [a, "32"]
    ensures GetCidrRange(zero) == GetCidrRange(all)
  {
    ParseZeroAndThirtyTwo();
    if !AddressRejected(a) {
      MaskIgnoresPrefixZero(IpToLong(a));
    }
  }

  lemma SplitBeforePrefix(addr: string, prefix: string)
    requires '/' !in prefix
    ensures Split(addr + "/" + prefix, '/') == Split(addr, '/') + [prefix]
  {
    SplitAppendPiece(addr, prefix, '/');
  }

  lemma ParseZeroAndThirtyTwo()
    ensures ParseInt("0") == Some(0) && ParseInt("32") == Some(32)
  {
    ParseIntDecimal(0, "");
    assert Decimal(0) + "" == "0";
    ParseIntDecimal(32, "");
    assert Decimal(32) + "" == "32";
  }

  /** A block whose prefix reads as 0 or 32 is the single base address. */
  lemma PrefixZeroIsOneAddress(cidr: string, fields: seq<string>, prefix: string)
    requires WellFormedCidr(cidr, fields, prefix)
    requires ParseInt(prefix).value == 0 || ParseInt(prefix).value == 32
    ensures Split(Join(fields, '.'), '.') == fields
    ensures var r := GetCidrRange(cidr);
      r.Some? && r.value.start == r.value.end == ToInt32(IpToLong(Join(fields, '.')))
  {
    RangeOfWellFormed(cidr, fields, prefix);
    var ip := IpToLong(Join(fields, '.'));
    var h := HostBits(ParseInt(prefix).value);
    assert h == 0;
    assert BlockStart(ip, h) == ip && BlockEnd(ip, h) == ip by {
      assert Pow2(0) == 1;
    }
  }

  /** The decimal text of each octet. */
  function DecimalFields(octets: seq<nat>): (fields: seq<string>)
    requires |octets| == 4
    ensures |fields| == 4 && forall i :: 0 <= i < 4 ==> fields[i] == Decimal(octets[i])
  {
    [Decimal(octets[0]), Decimal(octets[1]), Decimal(octets[2]), Decimal(octets[3])]
  }

  /** The canonical text of a block: four decimal octets and a decimal prefix. */
  function CidrText(octets: seq<nat>, prefix: nat): string
    requires |octets| == 4
  {
    Decimal(octets[0]) + "." + Decimal(octets[1]) + "." + Decimal(octets[2]) + "." + Decimal(octets[3])
      + "/" + Decimal(prefix)
  }

  /** The canonical text is well formed, and `parseInt` reads back every number in it. */
  lemma CanonicalWellFormed(octets: seq<nat>, prefix: nat)
    requires |octets| == 4 && (forall i :: 0 <= i < 4 ==> octets[i] <= 255) && prefix <= 32
    ensures WellFormedCidr(CidrText(octets, prefix), DecimalFields(octets), Decimal(prefix))
    ensures forall i :: 0 <= i < 4 ==> ParseInt(DecimalFields(octets)[i]) == Some(octets[i] as int)
    ensures ParseInt(Decimal(prefix)) == Some(prefix as int)
  {
    var fields := DecimalFields(octets);
    var text := Decimal(prefix);
    forall i | 0 <= i < 4
      ensures ParseInt(fields[i]) == Some(octets[i] as int)
      ensures '.' !in fields[i] && '/' !in fields[i]
    {
      ParseIntDecimal(octets[i], "");
      assert fields[i] + "" == fields[i];
      NoSeparatorInDigits(fields[i]);
    }
    ParseIntDecimal(prefix, "");
    assert text + "" == text;
    NoSeparatorInDigits(text);
    JoinFour(fields, '.');
  }

  /** Reading back the canonical text of a block gives the block of its address. */
  lemma CanonicalTextRange(octets: seq<nat>, prefix: nat)
    requires |octets| == 4 && (forall i :: 0 <= i < 4 ==> octets[i] <= 255) && prefix <= 32
    ensures var ip := Address(octets);
            var h := HostBits(prefix);
      GetCidrRange(CidrText(octets, prefix))
        == Some(CidrRange(ToInt32(BlockStart(ip, h)), ToInt32(BlockEnd(ip, h))))
  {
    var fields := DecimalFields(octets);
    CanonicalWellFormed(octets, prefix);
    RangeOfWellFormed(CidrText(octets, prefix), fields, Decimal(prefix));
    assert OctetValues(fields) == octets;
  }

  lemma NoSeparatorInDigits(digits: string)
    requires AllDigits(digits)
    ensures '.' !in digits && '/' !in digits
  {
  }

  // ---------------------------------------------------------------------------
  // doCidrOverlap

  /** `doCidrOverlap(cidr1, cidr2)`: false when either text is rejected,
      otherwise the closed-interval test on the signed ends. */
  function DoCidrOverlap(cidr1: string, cidr2: string): (r: bool)
    ensures r ==> GetCidrRange(cidr1).Some? && GetCidrRange(cidr2).Some?
  {
    var range1 := GetCidrRange(cidr1);
    var range2 := GetCidrRange(cidr2);
    if range1.None? || range2.None? then false
    else range1.value.start <= range2.value.end && range2.value.start <= range1.value.end
  }

  /** The unsigned address `x` lies in the range. */
  ghost predicate Covers(r: CidrRange, x: int)
  {
    ToUint32(r.start) <= x <= ToUint32(r.end)
  }

  /** Every accepted range read unsigned is an interval in one half of the
      address space. */
  lemma AcceptedRangeShape(cidr: string)
    requires GetCidrRange(cidr).Some?
    ensures var r := GetCidrRange(cidr).value;
      && -TWO31 <= r.start <= r.end < TWO31
      && ToUint32(r.start) <= ToUint32(r.end)
      && (ToUint32(r.start) < TWO31 <==> ToUint32(r.end) < TWO31)
  {
    AcceptsExactlyWellFormed(cidr);
    var fields, prefix :| WellFormedCidr(cidr, fields, prefix);
    AcceptedRangeIsBlock(cidr, fields, prefix);
    var r := GetCidrRange(cidr).value;
    ToUint32OfInt32(r.start);
    ToUint32OfInt32(r.end);
  }

  /** On two intervals that each lie in one half of the unsigned range, the
      signed intersection test gives the unsigned answer: if they lie in
      different halves, both tests say no. */
  lemma SignedTestAgrees(s1: int, e1: int, s2: int, e2: int)
    requires 0 <= s1 <= e1 < TWO32 && (s1 < TWO31 <==> e1 < TWO31)
    requires 0 <= s2 <= e2 < TWO32 && (s2 < TWO31 <==> e2 < TWO31)
    ensures (ToInt32(s1) <= ToInt32(e2) && ToInt32(s2) <= ToInt32(e1)) <==> (s1 <= e2 && s2 <= e1)
  {
    Int32OfUint32(s1);
    Int32OfUint32(e1);
    Int32OfUint32(s2);
    Int32OfUint32(e2);
  }

  /** The signed comparison of the source gives the unsigned interval test. */
  lemma OverlapIsUnsignedTest(cidr1: string, cidr2: string)
    ensures DoCidrOverlap(cidr1, cidr2) <==>
      var r1, r2 := GetCidrRange(cidr1), GetCidrRange(cidr2);
      && r1.Some? && r2.Some?
      && ToUint32(r1.value.start) <= ToUint32(r2.value.end)
      && ToUint32(r2.value.start) <= ToUint32(r1.value.end)
  {
    var r1, r2 := GetCidrRange(cidr1), GetCidrRange(cidr2);
    if r1.Some? && r2.Some? {
      AcceptedRangeShape(cidr1);
      AcceptedRangeShape(cidr2);
      var a, b := r1.value, r2.value;
      ToUint32OfInt32(a.start);
      ToUint32OfInt32(a.end);
      ToUint32OfInt32(b.start);
      ToUint32OfInt32(b.end);
      SignedTestAgrees(ToUint32(a.start), ToUint32(a.end), ToUint32(b.start), ToUint32(b.end));
    }
  }

  /** Two texts overlap exactly when both are accepted and some address lies
      in both blocks. */
  lemma OverlapMeansSharedAddress(cidr1: string, cidr2: string)
    ensures DoCidrOverlap(cidr1, cidr2) <==>
      var r1, r2 := GetCidrRange(cidr1), GetCidrRange(cidr2);
      r1.Some? && r2.Some? && exists x :: Covers(r1.value, x) && Covers(r2.value, x)
  {
    OverlapIsUnsignedTest(cidr1, cidr2);
    var r1, r2 := GetCidrRange(cidr1), GetCidrRange(cidr2);
    if r1.Some? && r2.Some? {
      AcceptedRangeShape(cidr1);
      AcceptedRangeShape(cidr2);
      var a, b := r1.value, r2.value;
      if DoCidrOverlap(cidr1, cidr2) {
        var x := if ToUint32(a.start) <= ToUint32(b.start) then ToUint32(b.start) else ToUint32(a.start);
        assert Covers(a, x) && Covers(b, x);
      }
    }
  }

  /** A rejected text overlaps nothing. */
  lemma RejectedNeverOverlaps(cidr1: string, cidr2: string)
    requires GetCidrRange(cidr1).None? || GetCidrRange(cidr2).None?
    ensures !DoCidrOverlap(cidr1, cidr2) && !DoCidrOverlap(cidr2, cidr1)
  {
  }

  /** The test does not depend on the order of its arguments. */
  lemma OverlapSymmetric(cidr1: string, cidr2: string)
    ensures DoCidrOverlap(cidr1, cidr2) == DoCidrOverlap(cidr2, cidr1)
  {
  }

  /** An accepted block overlaps itself. */
  lemma OverlapReflexive(cidr: string)
    requires GetCidrRange(cidr).Some?
    ensures DoCidrOverlap(cidr, cidr)
  {
    AcceptedRangeShape(cidr);
  }
}
