# IPv4 CIDR range and overlap check, in Dafny

This project models the CIDR helpers in `pkg/ali/util/validation.ts` of a
cluster-provisioning UI extension:

- `ipToLong` folds the dotted fields of an address into one unsigned 32-bit number.
- `getCidrRange` checks an `A.B.C.D/P` text. It returns the closed range `{ start, end }` of the block, or `null`.
- `doCidrOverlap` applies the closed-interval intersection test to two such texts. It answers `false` when either text is rejected.

It also models the JavaScript they are built on:

- `String.prototype.split` with a one-character separator (`JsStrings.Split`).
- `parseInt(_, 10)` (`JsStrings.ParseInt`, returning `Option<int>` with `None` for `NaN`).
- The ECMAScript 32-bit operators `<<`, `>>>`, `&`, `|` and `~`, with the conversions ToInt32 and ToUint32 (`JsNumbers`).

The model follows the code as written, including three behaviours a reader
of the function names might not expect:

- **Lenient fields.** `parseInt` skips leading whitespace, takes one optional sign and the longest run of decimal digits, and ignores the rest. So `"10a.0.0.0/24x"` is accepted as `10.0.0.0/24`. An empty field (`"10..0.0/8"`) has no digit and is rejected.
- **Prefix 0.** `<<` takes its shift count modulo 32. The `/0` mask `0xffffffff << 32` is therefore all ones, and a `/0` block is the single base address, exactly like `/32`, not the whole address space. `"0.0.0.0/0"` does not overlap `"10.0.0.0/8"`.
- **Signed ends.** `&` and `|` give signed 32-bit results, so `start` and `end` of a block in the upper half of the address space are negative. Every block lies wholly in one half of the address space. So the signed comparison in `doCidrOverlap` gives the same answer as the unsigned interval test, and `start <= end` holds both ways.

Where a plain-language description of the check would say "a valid IPv4
CIDR" or "`/0` covers everything", the model follows the code. The text
accepted is described exactly by `Validation.WellFormedCidr`. `/0` is one
address.

Whitespace set: `parseInt` skips the full ECMAScript StrWhiteSpaceChar set.
That is tab, vertical tab, form feed, the byte order mark U+FEFF, the Unicode
space separators (U+0020, U+00A0, U+1680, U+2000–U+200A, U+202F, U+205F,
U+3000) and the line terminators LF, CR, U+2028 and U+2029.

Files:

- `wrappers.dfy`: `Option`.
- `js_numbers.dfy`: 32-bit operators on exact integers. `&` and `|` are defined bit by bit on the unsigned image. Facts about masks are proved there.
- `js_strings.dfy`: `split`, `join` and `parseInt`.
- `validation.dfy`: the three functions, with their properties.
- `cidr_cases.dfy`: concrete texts, accepted and rejected.

## Model

| member | source | states |
|---|---|---|
| Validation.OctetValues | pkg/ali/util/validation.ts:44-49 | for fields none of which the `some` test rejects, the number `parseInt` reads from each, in order, each in [0, 255] |
| Validation.OctetRejected | pkg/ali/util/validation.ts:45-48 | the `some` test on one field: `parseInt` reads `NaN`, a number below 0 or one above 255; CidrCases.FieldsRejected and Validation.AcceptsExactlyWellFormed state that one such field makes the text rejected |
| Validation.Reduce | pkg/ali/util/validation.ts:11-13 | the `reduce` with `(acc << 8) + octet` over bytes keeps the low 32 bits of their big-endian value, although `<<` wraps to signed 32 bits at every step; each step relies on the contract of the fold before it |
| Validation.ReduceStep | pkg/ali/util/validation.ts:13 | one fold step `(acc << 8) + octet` agrees in its low 32 bits with `big * 256 + octet` when `acc` and `big` do |
| Validation.IpToLong | pkg/ali/util/validation.ts:8-15 | `ipToLong(ip)` is the big-endian value of the fields read by `parseInt`, taken modulo 2^32 (the `>>> 0`) |
| Validation.DottedQuadAddress | pkg/ali/util/validation.ts:8-15 | for four accepted fields, `ipToLong` is the address o0·2^24 + o1·2^16 + o2·2^8 + o3 of the numbers `parseInt` reads from them, and lies in [0, 2^32); the joined fields split back into the same fields |
| Validation.HostBits | pkg/ali/util/validation.ts:58 | the shift count `32 - prefix` modulo 32: `32 - prefix` for prefix 1 to 32, and 0 for prefix 0 |
| Validation.BlockIsSameNetwork | pkg/ali/util/validation.ts:58-62 | an address lies in the block of `ip` iff it agrees with `ip` on every bit above the low h, and the block holds 2^h addresses |
| Validation.BlockInOneHalf | pkg/ali/util/validation.ts:58-62 | the block of an address lies inside [0, 2^32), contains the address, starts on a multiple of 2^h, and lies wholly below or wholly above 2^31 |
| Validation.PrefixMask | pkg/ali/util/validation.ts:58 | `(0xffffffff << (32 - prefix)) >>> 0` is 2^32 - 2^h: the top 32 - h bits set, h the host bits |
| Validation.MaskedStart | pkg/ali/util/validation.ts:60 | `ipLong & mask` is the signed first address of the block |
| Validation.MaskedEnd | pkg/ali/util/validation.ts:62 | `start` OR `(~mask >>> 0)` is the signed last address of the block |
| Validation.MaskedRangeIsBlock | pkg/ali/util/validation.ts:58-64 | the three masking steps give the signed ends of the aligned block of 2^h addresses holding `ipLong`, for an unaligned base too |
| Validation.MaskedRange | pkg/ali/util/validation.ts:58-62 | the masking steps give two signed 32-bit ends; Validation.MaskedRangeIsBlock states that they are the ends of the aligned block of 2^h addresses holding `ipLong` |
| Validation.AddressRejected | pkg/ali/util/validation.ts:42-50 | the address test: not exactly four dotted fields, or some field the `some` test rejects; CidrCases.FieldsRejected and Validation.AcceptsExactlyWellFormed state that it rejects the text exactly then |
| Validation.GetCidrRange | pkg/ali/util/validation.ts:22-65 | every range returned has signed 32-bit ends with `start <= end`; Validation.AcceptsExactlyWellFormed, Validation.RangeOfWellFormed and Validation.AcceptedRangeIsBlock state which texts are accepted and which block each gives |
| Validation.SplitsOfParts | pkg/ali/util/validation.ts:26-40 | dotted fields and a prefix joined as `fields/prefix` split on `/` into exactly those two parts, and the address splits on `.` into the fields |
| Validation.WellFormedSplits | pkg/ali/util/validation.ts:26-40 | a well-formed text splits into its address and prefix, and its address into its four fields |
| Validation.RangeOfWellFormed | pkg/ali/util/validation.ts:22-65 | a well-formed text gives `Some` of the signed ends of the block of its address, that address being o0·2^24 + o1·2^16 + o2·2^8 + o3 of the numbers read from its fields |
| Validation.AcceptsExactlyWellFormed | pkg/ali/util/validation.ts:22-52 | `getCidrRange` returns a range iff the text is four dotted fields each read as [0, 255], one `/`, and a prefix read as [0, 32]; every other text, the empty one included, gives `null` |
| Validation.AcceptedRangeIsBlock | pkg/ali/util/validation.ts:54-64 | an accepted range read unsigned is the aligned block holding the base address; both signed ends have the same sign and `start <= end` |
| Validation.BlockSize | pkg/ali/util/validation.ts:58-62 | for prefix 1 to 32 the range holds exactly 2^(32 - prefix) addresses |
| Validation.MaskIgnoresPrefixZero | pkg/ali/util/validation.ts:58-62 | the masking steps give the same range for prefix 0 as for prefix 32 |
| Validation.PrefixZeroIsPrefixThirtyTwo | pkg/ali/util/validation.ts:22-65 | for every address text, `getCidrRange(addr + "/0")` equals `getCidrRange(addr + "/32")` |
| Validation.PrefixZeroIsOneAddress | pkg/ali/util/validation.ts:58-64 | a well-formed text whose prefix reads as 0 or 32 gives `start == end ==` the base address |
| Validation.CanonicalWellFormed | pkg/ali/util/validation.ts:32-52 | the decimal text `a.b.c.d/p` of octets in [0, 255] and a prefix in [0, 32] passes every check, and `parseInt` reads back each number |
| Validation.CanonicalTextRange | pkg/ali/util/validation.ts:22-65 | `getCidrRange` of the decimal text `a.b.c.d/p` is the signed block of a·2^24 + b·2^16 + c·2^8 + d with 2^HostBits(p) addresses |
| Validation.AcceptedRangeShape | pkg/ali/util/validation.ts:60-64 | every accepted range is an interval of signed 32-bit values, `start <= end` signed and unsigned, lying in one half of the unsigned range |
| Validation.SignedTestAgrees | pkg/ali/util/validation.ts:76 | on two intervals that each lie in one half of [0, 2^32), the signed intersection test gives the unsigned one |
| Validation.DoCidrOverlap | pkg/ali/util/validation.ts:67-77 | `true` only when both texts are accepted; Validation.OverlapIsUnsignedTest and Validation.OverlapMeansSharedAddress state exactly when it is `true` |
| Validation.OverlapIsUnsignedTest | pkg/ali/util/validation.ts:67-77 | `doCidrOverlap` is true iff both texts are accepted and their ranges, read unsigned, intersect |
| Validation.OverlapMeansSharedAddress | pkg/ali/util/validation.ts:67-77 | `doCidrOverlap` is true iff both texts are accepted and some unsigned address lies in both ranges |
| Validation.RejectedNeverOverlaps | pkg/ali/util/validation.ts:68-73 | a rejected text overlaps nothing, in either argument position |
| Validation.OverlapSymmetric | pkg/ali/util/validation.ts:75-76 | the result does not depend on the order of the arguments |
| Validation.OverlapReflexive | pkg/ali/util/validation.ts:75-76 | every accepted text overlaps itself |
| JsNumbers.ToUint32 | pkg/ali/util/validation.ts:13 | the ToUint32 conversion lies in [0, 2^32) and leaves values already in range unchanged |
| JsNumbers.ToInt32 | pkg/ali/util/validation.ts:60-62 | the ToInt32 conversion lies in [-2^31, 2^31) and leaves values already in range unchanged |
| JsNumbers.ToUint32OfInt32 | pkg/ali/util/validation.ts:60-62 | a signed 32-bit value read unsigned adds 2^32 when negative, and reads back as itself |
| JsNumbers.Int32OfUint32 | pkg/ali/util/validation.ts:60-62 | an unsigned 32-bit value read signed subtracts 2^32 from 2^31 up, and reads back as itself |
| JsNumbers.UnsignedShiftRightZero | pkg/ali/util/validation.ts:13 | `x >>> 0` is the unsigned reading of x |
| JsNumbers.Int32SameBits | pkg/ali/util/validation.ts:13 | ToInt32 keeps the 32-bit string |
| JsNumbers.SameBitsShiftByte | pkg/ali/util/validation.ts:13 | shifting a byte in at the bottom keeps equality of the low 32 bits |
| JsNumbers.SameBitsAdd | pkg/ali/util/validation.ts:13 | adding the same octet keeps equality of the low 32 bits |
| JsNumbers.ShiftLeft | pkg/ali/util/validation.ts:13 | `a << b` is a signed 32-bit value; JsNumbers.ShiftCountModulo32 and JsNumbers.ShiftAllOnes state what it shifts |
| JsNumbers.UnsignedShiftRight | pkg/ali/util/validation.ts:13 | `a >>> b` is an unsigned 32-bit value; JsNumbers.UnsignedShiftRightZero states that `>>> 0` reads its operand unsigned |
| JsNumbers.BitAnd | pkg/ali/util/validation.ts:60 | `a & b` is a signed 32-bit value; JsNumbers.AndWithMask states that AND with a mask clears the low bits |
| JsNumbers.BitOr | pkg/ali/util/validation.ts:62 | `a` OR `b` (bitwise OR) is a signed 32-bit value; JsNumbers.OrWithLowOnes states that OR with low ones fills in the low bits of an aligned number |
| JsNumbers.BitNot | pkg/ali/util/validation.ts:62 | `~a` is a signed 32-bit value; JsNumbers.NotMask states that `~mask >>> 0` is the complement of the mask |
| JsNumbers.AndAllOnes | pkg/ali/util/validation.ts:60 | AND with all n bits set keeps an n-bit number |
| JsNumbers.AndHighMask | pkg/ali/util/validation.ts:60 | AND with bits k to n-1 set clears exactly the low k bits of an n-bit number |
| JsNumbers.AndWithMask | pkg/ali/util/validation.ts:60 | `x & mask`, mask having the top 32 - h bits set, is x with its low h bits cleared, read signed |
| JsNumbers.OrZero | pkg/ali/util/validation.ts:62 | OR with zero keeps an n-bit number |
| JsNumbers.OrLowOnes | pkg/ali/util/validation.ts:62 | OR with the low k bits set fills in the low k bits of a multiple of 2^k |
| JsNumbers.OrWithLowOnes | pkg/ali/util/validation.ts:62 | s OR (2^h - 1), for a multiple s of 2^h, is the last number before the next multiple, read signed |
| JsNumbers.ShiftCountModulo32 | pkg/ali/util/validation.ts:58 | `<<` sees its shift count only modulo 32 |
| JsNumbers.ShiftAllOnes | pkg/ali/util/validation.ts:58 | `(0xffffffff << b) >>> 0` is 2^32 - 2^(b mod 32); a count of 32 shifts nothing |
| JsNumbers.NotMask | pkg/ali/util/validation.ts:62 | `~mask >>> 0`, mask having the top 32 - h bits set, is 2^h - 1 |
| JsStrings.Split | pkg/ali/util/validation.ts:26 | `split` always returns at least one piece, and no piece contains the separator |
| JsStrings.JoinSplit | pkg/ali/util/validation.ts:26 | joining the pieces of a split with the separator gives back the string |
| JsStrings.SplitJoin | pkg/ali/util/validation.ts:40 | splitting the join of pieces free of the separator gives back the pieces |
| JsStrings.SplitPrepend | pkg/ali/util/validation.ts:26 | text without the separator, put in front, extends the first piece |
| JsStrings.SplitAppendPiece | pkg/ali/util/validation.ts:26 | appending a separator and a piece free of it adds exactly that piece |
| JsStrings.NotInSplit | pkg/ali/util/validation.ts:40 | a character absent from a string is absent from every piece of its split |
| JsStrings.TrimStartRemovesLeadingWhiteSpace | pkg/ali/util/validation.ts:33 | `parseInt` drops exactly the whitespace the text starts with |
| JsStrings.LeadingDigitsIsLongest | pkg/ali/util/validation.ts:33 | `parseInt` reads the longest run of digits: the next character, if any, is no digit |
| JsStrings.DecimalValue | pkg/ali/util/validation.ts:33 | the digits of a decimal numeral have its value |
| JsStrings.ParseIntNumeral | pkg/ali/util/validation.ts:33 | `parseInt(ws + sign + digits + rest)` is the signed value of the digits for any whitespace prefix and any `rest` that does not continue the digits |
| JsStrings.ParseIntDecimal | pkg/ali/util/validation.ts:46-48 | `parseInt` reads back the decimal numeral of any natural number, whatever non-digit follows |
| JsStrings.ParseInt | pkg/ali/util/validation.ts:33 | `parseInt` gives `NaN` (`None`) iff, after the leading whitespace, there is no digit, neither at once nor after one sign; the numbers it reads are stated by JsStrings.ParseIntNumeral and JsStrings.ParseIntDecimal |
| CidrCases.RangeZeroSlashThirtyTwo | pkg/ali/util/validation.ts:22-65 | `"0.0.0.0/32"` gives the range [0, 0] |
| CidrCases.RangeSlashZero | pkg/ali/util/validation.ts:58-62 | `"0.0.0.0/0"` gives [0, 0], a single address |
| CidrCases.RangeSlashEight | pkg/ali/util/validation.ts:58-62 | `"10.0.0.0/8"` gives [0x0a000000, 0x0affffff] |
| CidrCases.RangeTenSlashTwentyFour | pkg/ali/util/validation.ts:58-62 | `"10.0.0.0/24"` gives [0x0a000000, 0x0a0000ff] |
| CidrCases.RangeUnalignedBase | pkg/ali/util/validation.ts:60 | `"10.0.0.5/24"` is accepted and masked to [0x0a000000, 0x0a0000ff] |
| CidrCases.RangeNextSlashTwentyFour | pkg/ali/util/validation.ts:58-62 | `"10.0.1.0/24"` gives [0x0a000100, 0x0a0001ff] |
| CidrCases.RangeInnerSlashTwentyFour | pkg/ali/util/validation.ts:58-62 | `"10.1.2.0/24"` gives [0x0a010200, 0x0a0102ff] |
| CidrCases.RangeHostOne | pkg/ali/util/validation.ts:58-62 | `"10.0.0.1/32"` gives the single address 0x0a000001 |
| CidrCases.RangeHostTwo | pkg/ali/util/validation.ts:58-62 | `"10.0.0.2/32"` gives the single address 0x0a000002 |
| CidrCases.RangeUpperHalf | pkg/ali/util/validation.ts:60-62 | `"192.168.0.0/16"` gives the negative signed ends [-0x3f580000, -0x3f570001] |
| CidrCases.SlashZeroMissesTenSlashEight | pkg/ali/util/validation.ts:58-76 | `"0.0.0.0/0"` does not overlap `"10.0.0.0/8"` |
| CidrCases.SingleHosts | pkg/ali/util/validation.ts:75-76 | a host overlaps itself and not the next host |
| CidrCases.NestedAndNeighbouringBlocks | pkg/ali/util/validation.ts:75-76 | a /24 inside a /8 overlaps it; two adjacent /24 blocks do not overlap |
| CidrCases.UpperHalfOverlaps | pkg/ali/util/validation.ts:75-76 | a block with negative signed ends overlaps itself and not a block in the lower half |
| CidrCases.EmptyTextRejected | pkg/ali/util/validation.ts:23-25 | the empty text gives `null` and overlaps nothing |
| CidrCases.SlashCount | pkg/ali/util/validation.ts:26-30 | any text that splits on `/` into other than two parts gives `null` |
| CidrCases.NoSlashRejected | pkg/ali/util/validation.ts:28-30 | `"not-a-cidr"` gives `null` |
| CidrCases.TwoSlashesRejected | pkg/ali/util/validation.ts:28-30 | `"10.0.0.0/24/8"` gives `null` |
| CidrCases.PrefixRejected | pkg/ali/util/validation.ts:32-37 | a prefix `parseInt` reads as `NaN`, below 0 or above 32 gives `null`, whatever the address |
| CidrCases.PrefixAboveRangeRejected | pkg/ali/util/validation.ts:35-37 | `"10.0.0.0/33"` gives `null` |
| CidrCases.NegativePrefixRejected | pkg/ali/util/validation.ts:35-37 | `"10.0.0.0/-1"` gives `null` |
| CidrCases.FieldsRejected | pkg/ali/util/validation.ts:40-52 | an address that is not four fields, or has a field `parseInt` reads as `NaN` or outside [0, 255], gives `null` |
| CidrCases.OctetAboveRangeRejected | pkg/ali/util/validation.ts:44-49 | `"256.0.0.0/24"` gives `null` |
| CidrCases.EmptyFieldRejected | pkg/ali/util/validation.ts:44-46 | `"10..0.0/8"` gives `null`: the empty field has no digit |
| CidrCases.ThreeFieldsRejected | pkg/ali/util/validation.ts:43 | `"10.0.0/8"` gives `null` |
| CidrCases.ParseTrailingLetter | pkg/ali/util/validation.ts:46-48 | `parseInt("10a")` is 10 |
| CidrCases.ParseTrailingPrefix | pkg/ali/util/validation.ts:33 | `parseInt("24x")` is 24 |
| CidrCases.AcceptedFields | pkg/ali/util/validation.ts:40-64 | a text of four fields `parseInt` reads as octets and a prefix read as [0, 32] gives the block of those octets, whatever follows each number |
| CidrCases.TrailingCharactersAccepted | pkg/ali/util/validation.ts:33-64 | `"10a.0.0.0/24x"` is accepted as [0x0a000000, 0x0a0000ff] |

## Left out

- `isValidCIDR` (pkg/ali/util/validation.ts:79-81) only calls `ipaddr.isValidCIDR`. The `ipaddr.js` library is not part of this model, and its behaviour (which also accepts IPv6) cannot be stated from what is visible. Nothing on the overlap path calls it.
- `pkg/ali/util/ack.ts` is not part of this model. It only builds query parameters and dispatches requests to the host application.
- `pkg/ali/provisioner.ts` and `pkg/ali/index.ts` are not part of this model. They register plugin components and assets, and contain no logic.
- Inputs that are not strings (`null`, `undefined`, numbers): `!cidr` is modelled only for strings, where it means the empty string.
- Validation.IpToLong: requires every field to read as a number in [0, 255], which is what its one caller guarantees (lines 42-52). The `NaN` that `parseInt` would feed into `<<` for other fields is not modelled.
- JsStrings.ParseInt: returns an exact integer. The rounding of very long digit runs to a double and the resulting `Infinity` are not modelled. They cannot reach a value in [0, 255] or [0, 32], so no accept/reject decision depends on them.
- JsNumbers.ShiftLeft, JsNumbers.BitAnd, JsNumbers.BitOr and JsNumbers.BitNot act on exact integers, not on `bv32`. `&` and `|` are defined bit by bit on the 32-bit unsigned image. Every JavaScript `number` that reaches them here is an integer.
- JsStrings.Split: models `split` with a one-character separator only, the only form the code uses. Characters are Dafny `char`s. All the characters inspected are single UTF-16 code units, so a `char` and a code unit agree for them.
