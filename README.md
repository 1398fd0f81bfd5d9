# IPv4 addressing engine of the network calculator suite, in Dafny

This project models the calculation logic of `app.js` from a browser-based suite of network
calculators, and proves properties of that model. The page code is set aside. What remains is:

- the dotted-quad codec;
- mask, wildcard and classification arithmetic;
- the host-count prefix search;
- the four calculation kernels: fixed-size subnetting, VLSM packing, supernet summarisation and
  the bit-by-bit breakdown;
- the IPv6 `::` expansion with its eight-group check.

Addresses are the unsigned 32-bit words of `>>> 0` (`U32`, an `int` in `[0, 2^32)`). Reduction
modulo 2^32 is written out with `ToUint32`. JavaScript's `&` is `BitAnd`, defined bit by bit;
`Network` is `BitAnd(x, MaskInt(p))`, and its contract gives the arithmetic form of that AND.

The modules, one file each:

| file | module | what it holds |
|---|---|---|
| `wrappers.dfy` | `Wrappers` | `Option` and `Result` |
| `bits.dfy` | `Bits` | powers of two, `Bit`, `High` (the top bits of a word), `BitAnd` |
| `text.dfy` | `Text` | trimming, `split`/`join`, `toLowerCase` on ASCII, decimal and binary digits, `padStart` |
| `sorting.dfy` | `Sorting` | the sort used for the host list and the supernet inputs |
| `codec.dfy` | `AddressCodec` | `ipToOctets`, `octetsToIP`, `toInt`, `fromInt`, `parseInt`, `parseCIDR` |
| `masks.dfy` | `MaskArithmetic` | `maskInt`, `maskFromPrefix`, `wildcardFromMask`, `classOfIP`, `isPrivateIP`, `smallestPrefixForHosts`, `bitsOfOctet` |
| `subnets.dfy` | `SubnetPlanner` | the cores of `calculateIPv4` and `calcVLSM` |
| `supernet.dfy` | `RouteAggregator` | the core of `calcSupernet` |
| `binary.dfy` | `BitVisualizer` | the core of `calcBinary` with its `decorate` loop |
| `ipv6.dfy` | `Ipv6` | `normalizeIPv6` and the core of `calcIPv6` |

The source is imperative in places, and the model keeps that shape:

- `maskFromPrefix` fills an array of 32 bits and packs it eight at a time. It is the method
  `MaskFromPrefix` over an `array<int>`, with the inner loop in `PackOctet`.
- The countdown of `smallestPrefixForHosts` is the method `SmallestPrefixForHosts`.
- The subnet row loop is `SubnetTable`.
- The VLSM cursor loop is `AllocateBlocks`.
- The supernet common-bit counter is `CommonPrefixLength`.
- The string accumulation of `decorate` is `Decorate`.

Each of these methods is proved against a function:

- `MaskFromPrefix` and `PackOctet` against `MaskInt`;
- `SmallestPrefixForHosts` against `PrefixForHosts`;
- `SubnetTable` against `SubnetRow`;
- `AllocateBlocks` against `AllocationAt`;
- `CommonPrefixLength` against `IsCommonPrefix`;
- `Decorate` against `Render` of `Tagged`.

The lemmas below then state what the source promises about those functions. Each DOM handler
becomes a method that takes the form fields as parameters and returns a record or an error:
`CalculateIpv4`, `PlanVlsm`, `CalcSupernet`, `CalcBinary`, plus the function `CalcIpv6`.

## Model

| member | source | states |
|---|---|---|
| AddressCodec.ParseOctet | app.js:9-11 | a group is accepted iff it is a non-empty run of decimal digits of value at most 255; the value is its decimal value; otherwise the error is "numeric" for a non-digit group and "range" for a value above 255 |
| AddressCodec.ParseOctets | app.js:8-13 | the groups are all accepted iff each is octet text; the values come in order; on failure the error is that of the first group that fails |
| AddressCodec.ErrorMessagesDistinct | app.js:7-11 | the three messages `ipToOctets` throws are different texts, so the message shown names the error |
| AddressCodec.IpToOctets | app.js:5-15 | succeeds iff the trimmed text has exactly four dot-separated groups that are all octet text, with each octet the decimal value of its group; the format error is raised exactly when the group count is not four; with four groups, the error is "numeric" or "range" for the first group that is not an octet |
| AddressCodec.OctetsToIP | app.js:17 | the dotted text of any four octets parses back to the same octets and contains only digits and dots |
| AddressCodec.ToInt | app.js:52-53 | the big-endian word of four octets lies below 2^32 and `fromInt` returns the octets |
| AddressCodec.FromInt | app.js:53 | the four octets, weighted 2^24, 2^16, 2^8 and 1, add up to the word they were taken from |
| AddressCodec.FromIntToIntInverse | app.js:52-53 | weights 2^24, 2^16, 2^8 and 1 give a word below 2^32 whose octets are the inputs |
| AddressCodec.ToIntFromInt | app.js:52-53 | `toInt(fromInt(n)) == n` for every word |
| AddressCodec.ToIntInjective | app.js:52 | different octet quads give different words |
| AddressCodec.LeadingDigits | app.js:290 | the longest run of decimal digits at the start of the text, as `parseInt` reads it |
| AddressCodec.ParseInt | app.js:290 | `parseInt(s, 10)` yields a number iff some digit follows the leading whitespace and sign |
| AddressCodec.ParseIntOfDigits | app.js:290 | `parseInt` of a digit string is its decimal value |
| AddressCodec.ParseCidr | app.js:288-292 | succeeds iff the text before the first `/` is an address; the address is that address, and the error is its error; the prefix is `parseInt` of the text after the first `/`, and NaN when there is no `/` |
| AddressCodec.ParseCidrRoundTrip | app.js:288-292 | `a.b.c.d/p` written from octets and a prefix parses back to those octets and that prefix |
| MaskArithmetic.MaskInt | app.js:54 | the mask word is 2^32 - 2^(32-p): 0 for p = 0 and 0xFFFFFFFF for p = 32 |
| MaskArithmetic.MaskIntBits | app.js:54 | bit i of the mask is set iff i >= 32 - p, so exactly the top p bits are set |
| MaskArithmetic.PackOctet | app.js:22-26 | the inner loop over eight entries of the bit array yields octet i of the mask word |
| MaskArithmetic.MaskFromPrefix | app.js:19-28 | the mask text built from the 32-entry bit array is the dotted form of `fromInt(maskInt(p))` |
| MaskArithmetic.Network | app.js:84 | `x & maskInt(p)` is the top p bits of x followed by zeros, lies at or below x, and is within one block of x |
| MaskArithmetic.NetworkFixed | app.js:84 | an address is its own network iff it is a multiple of the block size |
| MaskArithmetic.InBlockNetwork | app.js:84 | two addresses lie in the same /p block iff their networks under p are equal |
| MaskArithmetic.InBlockInterval | app.js:84 | the /p block of an aligned network is the interval from the network to the network plus 2^(32-p) |
| MaskArithmetic.Complement | app.js:30-33 | each wildcard octet is 255 minus the mask octet, so the wildcard word is 0xFFFFFFFF minus the mask word |
| MaskArithmetic.WildcardFromMask | app.js:30-33 | fails exactly when `ipToOctets` rejects the mask, with its error; otherwise it parses to the complement octets |
| MaskArithmetic.WildcardOfPrefix | app.js:30-33 | the wildcard of the mask text of p is the dotted form of 0xFFFFFFFF - maskInt(p) |
| MaskArithmetic.ClassOfIP | app.js:35-43 | the class is read from the first octet; what each class means as a leading-bit pattern is stated by `ClassLeadingBits` |
| MaskArithmetic.ClassLabelsDistinct | app.js:35-43 | the seven labels `classOfIP` returns are different texts, so the label shown names the class |
| MaskArithmetic.ClassLeadingBits | app.js:35-43 | each class holds iff the leading bits of the address match: Unknown for first octet 0, Loopback for 127, A for a leading 0 otherwise, B for `10`, C for `110`, D for `1110`, E for `1111` |
| MaskArithmetic.IsPrivateIP | app.js:45-50 | the first-octet and second-octet test; that it is membership of the three RFC 1918 blocks is stated by `PrivateIsRfc1918` |
| MaskArithmetic.InPrivateBlocks | app.js:45-50 | membership of 10.0.0.0/8, 172.16.0.0/12 and 192.168.0.0/16 is the first-octet and second-octet condition of `isPrivateIP` |
| MaskArithmetic.PrivateIsRfc1918 | app.js:45-50 | an address is private iff it lies in one of the three blocks of section 3 of RFC 1918 |
| MaskArithmetic.UsableHosts | app.js:89 | fewer usable hosts than addresses in the block, and at least two from /30 down; that they are the addresses strictly between network and broadcast is stated by `RangeOfBlock` |
| MaskArithmetic.PrefixForHosts | app.js:58-65 | the prefix the countdown finds; its bounds, minimality, fallback and monotonicity are stated by `PrefixForHostsBounds`, `PrefixForHostsUnique`, `NoBlockLargeEnough` and `PrefixForHostsMonotone` |
| MaskArithmetic.PrefixForHostsBounds | app.js:58-65 | when h + 2 <= 2^32, the block of the result holds h + 2 addresses, and either the result is 32 or the next smaller block does not; it is 32 when h + 2 > 2^32 |
| MaskArithmetic.SmallestPrefixForHosts | app.js:58-65 | the countdown loop with its early return computes `PrefixForHosts` |
| MaskArithmetic.PrefixForHostsUnique | app.js:58-65 | a prefix whose block holds h + 2 addresses, when every smaller block does not, is the result |
| MaskArithmetic.NoBlockLargeEnough | app.js:64 | when no block holds h + 2 addresses, the result is the fallback 32 |
| MaskArithmetic.HostCountBoundary | app.js:58-65 | for 1 <= h <= 2^32 - 2, the chosen block has at least h usable hosts and the next smaller block has fewer |
| MaskArithmetic.PrefixForHostsMonotone | app.js:58-65 | for requests of at most 2^32 - 2 hosts, more hosts never give a longer prefix; a larger request falls back to /32 (`NoBlockLargeEnough`), which can be longer than the prefix of a smaller request |
| MaskArithmetic.BinaryDigits | app.js:56 | `n.toString(2)` spells the bits of n, most significant first, and n is below 2 to the power of its length |
| MaskArithmetic.BinaryLength | app.js:56 | a number below 2^w has at most w binary digits |
| MaskArithmetic.PaddedBits | app.js:56 | padding the binary digits to eight places with `0` puts bit 7 - i at place i |
| MaskArithmetic.BitsOfOctet | app.js:56 | the rendering of an octet is eight characters, with character i being bit 7 - i |
| SubnetPlanner.BlockSize | app.js:85 | `2^(32-p) >>> 0`, used in both the subnet split and VLSM, is 2^(32-p) for p > 0 and wraps to 0 for p = 0 |
| SubnetPlanner.GatewayChoiceOf | app.js:116 | the selector value "first" picks the first usable address as gateway and any other value the last; the choice is stated for a block by `RangeOfBlock` |
| SubnetPlanner.RangeAt | app.js:112-116 | the row of a block with every sum taken modulo 2^32; its meaning for an aligned block is stated by `RangeOfBlock` |
| SubnetPlanner.PlanMessagesDistinct | app.js:78-80 | the address errors, the prefix-order message and the host-list message of line 229 are different texts, so the message shown names the error |
| SubnetPlanner.RangeOfBlock | app.js:112-115 | for an aligned block: the broadcast is the network plus the size minus one, inside the block; up to /30 the first and last usable are network + 1 and broadcast - 1, and they span `UsableHosts` addresses; at /31 the first is the broadcast and the last is the network; the gateway is the first usable address for the choice "first" and the last otherwise |
| SubnetPlanner.UsableRange | app.js:112-115 | up to /30, the first and last usable addresses of a non-wrapping block bound exactly `usableHosts` addresses |
| SubnetPlanner.SubnetRow | app.js:111-116 | row k of the split, at base + k * size modulo 2^32; its place in the base block is stated by `SubnetRowSpan`, `SubnetRowAligned`, `SubnetRowInBase` and `SubnetOfAddress` |
| SubnetPlanner.SubnetTable | app.js:111-121 | row k of the table is subnet k of the split |
| SubnetPlanner.CalculateIpv4 | app.js:80-121 | a bad address gives its error, and desired < base gives the prefix-order error; otherwise: host bits, usable hosts, subnet bits, subnet count, mask, wildcard, class label, privacy and base CIDR as in the source; min(count, 50) rows, each subnet k of the base network with the gateway the selector value picks; the truncation flag iff the count exceeds 50 |
| SubnetPlanner.SubnetRowSpan | app.js:112-113 | for d >= b and k below 2^(d - b), subnet k of an aligned /b base block starts at base + k * 2^(32-d) without wrapping and ends one block later |
| SubnetPlanner.SubnetRowAligned | app.js:112 | for d >= b and k below 2^(d - b), row k of an aligned /b base is an aligned /d network |
| SubnetPlanner.SubnetRowInBase | app.js:112-113 | for d >= b and k below 2^(d - b), the network and broadcast of row k of an aligned /b base lie inside the base block |
| SubnetPlanner.SubnetOfAddress | app.js:111-121 | every address of the base block lies in the row whose index is its offset divided by the subnet size, so the rows cover the block |
| SubnetPlanner.Positives | app.js:228 | the filter keeps exactly the positive numbers, each as often as it occurs |
| SubnetPlanner.HostRequests | app.js:228 | the host list is sorted in non-increasing order, is all positive, and holds each positive field value as often as it occurs |
| SubnetPlanner.HostOrderIrrelevant | app.js:228 | fields that are a permutation of each other give the same host list |
| SubnetPlanner.BlockPrefixesAscending | app.js:228-243 | when no request exceeds 2^32 - 2 hosts, requests sorted largest first give block prefixes that never decrease along the plan; a larger request falls back to /32 (`NoBlockLargeEnough`), so this order does not hold for it |
| SubnetPlanner.LastCoarse | app.js:244-247 | the warning left by the first k requests; its meaning is stated by `LastCoarseMeaning` |
| SubnetPlanner.LastCoarseMeaning | app.js:244-247 | no warning iff every block prefix is at least the base prefix; otherwise the warning names a request that is coarser than the base, and every later one fits |
| SubnetPlanner.AllocateBlocks | app.js:238-259 | one allocation per request, allocation k being block k placed at the cursor; the warning is the last coarse request |
| SubnetPlanner.PlanVlsm | app.js:222-260 | a bad base address gives its error, and an empty host list gives the host error; otherwise the plan that `AllocateBlocks` builds from the network of the base |
| SubnetPlanner.CursorStep | app.js:259 | advancing the cursor by one block size modulo 2^32 keeps it at the base plus the blocks placed so far, modulo 2^32 |
| SubnetPlanner.VlsmLayout | app.js:238-259 | when the base is aligned and the blocks fit in the base block, block k runs from offset k to offset k + 1 of the base, inside the base block |
| SubnetPlanner.VlsmDisjoint | app.js:238-259 | when the base is aligned and the blocks fit in the base block, earlier blocks end before later ones start; when they do not fit, the cursor wraps modulo 2^32 and a later block can start below an earlier one |
| SubnetPlanner.VlsmAligned | app.js:238-259 | with an aligned base, a block no larger than those before it and no larger than the base block starts on a multiple of its own size, so it is its own network; a block coarser than the base is only warned about and need not be aligned |
| Sorting.Sort | app.js:228 | the result is sorted and is a permutation of the input |
| Sorting.SortedUnique | app.js:298 | two sorted permutations of the same values are equal |
| Sorting.SortOrderIndependent | app.js:298 | sorting two permutations of the same values gives the same sequence |
| RouteAggregator.NonEmpty | app.js:295 | `filter(Boolean)` keeps only non-empty lines, and a line is kept iff it is non-empty |
| RouteAggregator.NonEmptyConcat | app.js:295 | the filter keeps the order: filtering a concatenation filters each part in turn, and a single line is kept iff it is non-empty |
| RouteAggregator.NonEmptyCounts | app.js:295 | the filter keeps each non-empty line as often as it occurs and no empty line |
| RouteAggregator.NoEntriesIffBlank | app.js:295-296 | there is no entry iff every line of the text trims to nothing |
| RouteAggregator.FirstError | app.js:298 | the map succeeds iff every entry parses, giving the values in order; otherwise the error is that of the first entry that fails |
| RouteAggregator.SortedEnds | app.js:298-300 | the first and last of the sorted keys are input keys and bound every key |
| RouteAggregator.Lowest | app.js:299-300 | `first` is an input address no greater than any other |
| RouteAggregator.Highest | app.js:299-300 | `last` is an input address no smaller than any other |
| RouteAggregator.CommonPrefixLength | app.js:302-308 | the counter ends at the number of leading bits on which the two words agree: their top `common` bits are equal, and the next bit differs |
| RouteAggregator.CommonPrefixAgreement | app.js:302-308 | the top k bits agree iff k is at most the common length |
| RouteAggregator.CommonPrefixUnique | app.js:302-308 | the common length is unique |
| RouteAggregator.CommonPrefixFull | app.js:302-308 | the common length is 32 iff the two words are equal |
| RouteAggregator.FirstDifferingBit | app.js:302-308 | below 32, the first differing bit is 0 in the smaller word and 1 in the larger |
| RouteAggregator.RouteTextParses | app.js:312-314 | the result text parses back as a CIDR of the summary network and prefix |
| RouteAggregator.CalcSupernet | app.js:294-316 | no entries gives "Add networks first."; an unparsable entry gives the error of the first one; otherwise the summary is the common prefix of the lowest and highest address, the lowest address masked by it, and the text with the contiguity note |
| RouteAggregator.SupernetMessagesDistinct | app.js:296-298 | the message for an empty list differs from every address error, and those differ from each other |
| RouteAggregator.SummaryCovers | app.js:310-314 | every input address masked by the summary prefix is the summary network |
| RouteAggregator.SummaryTightest | app.js:302-314 | below /32, one more prefix bit separates the lowest and highest address |
| RouteAggregator.SummaryHostRoute | app.js:302-310 | the summary is a /32 iff all input addresses are equal |
| RouteAggregator.SameExtremes | app.js:298-300 | permutations of the same addresses have the same lowest and highest address |
| RouteAggregator.SummaryOrderIndependent | app.js:298-314 | the summary does not depend on the order of the inputs |
| BitVisualizer.Decorate | app.js:348-354 | the accumulated markup is the rendering of the eight digits, each tagged as a network bit iff its mask digit is `1` |
| BitVisualizer.OctetSpans | app.js:345-360 | digit j of octet o shows bit 31 - (8o + j) of the address, and is tagged a network bit iff its position is below the prefix |
| BitVisualizer.DecoratedOctet | app.js:345-354 | tagging the binary digits of octet o by the digits of the mask octet marks exactly the first `prefix` address bits as network bits |
| BitVisualizer.OctetDigit | app.js:345-346 | digit j of the rendering of octet o of a word is bit 31 - (8o + j) of the word |
| BitVisualizer.OctetBit | app.js:53 | bit k of octet o of `fromInt(m)` is bit 24 - 8o + k of m |
| BitVisualizer.NetworkBits | app.js:338 | the network `ip & mask` keeps the top p bits of the address and clears the others |
| BitVisualizer.OctetLine | app.js:345-360 | the markup of octet o from the parsed octets is the rendering of that octet's spans |
| BitVisualizer.OctetLines | app.js:357-360 | the four lines are labelled "Octet 1: " to "Octet 4: ", each followed by its rendering |
| BitVisualizer.CalcBinary | app.js:325-362 | a bad address gives its error; otherwise the mask text, the wildcard text, the network `ip & mask` with its prefix, and four octet lines in which the first `prefix` bits are network bits |
| Ipv6.CalcIpv6 | app.js:184-205 | the empty field gives "Enter IPv6 address"; "Invalid IPv6" exactly when the cleaned input has neither eight hexadecimal groups of at most four digits nor, around a `::`, at most seven such groups; otherwise the view shows an eight-group, lower-case, whitespace-free full form, with the input echoed as the network and the compressed form, and the prefix as `parseInt` reads it |
| Ipv6.Ipv6MessagesDistinct | app.js:189-203 | the two messages are different texts |
| Ipv6.NormalizeIPv6 | app.js:171-182 | the expansion has no whitespace and no uppercase ASCII letter |
| Ipv6.NoGapOnlyCleans | app.js:172-181 | without `::`, the result is the cleaned text, and clean text comes back unchanged |
| Ipv6.ExpandedGroups | app.js:173-179 | with `::`, the groups are the left groups, then max(1, 8 - L - R) groups `"0"`, then the right groups, each in place |
| Ipv6.ExpandedGroupCount | app.js:176-178 | with `::`, the expansion has eight groups iff the two sides hold at most seven groups |
| Ipv6.AcceptedShapeExpands | app.js:176-194 | the expansion passes the eight-group check exactly when the cleaned text has eight hexadecimal groups, or at most seven such groups around its `::` |
| Ipv6.OverfullRejected | app.js:176-194 | with `::` and eight or more groups around it, the address is rejected as invalid |
| Ipv6.FullFormAccepted | app.js:171-194 | eight groups of one to four lowercase hexadecimal digits, joined by colons, are accepted and expand to themselves |
| Ipv6.CompressedExpands | app.js:171-194 | when at most seven written groups remain, writing groups with one run replaced by `::` and expanding gives the groups back with `"0"` for each group of the run, and the result is accepted |

## Left out

- A host request above 2^32 - 2 silently gets a /32 block, as `smallestPrefixForHosts` falls back to 32
  when no block is large enough. The model keeps this fallback (`NoBlockLargeEnough`); no warning is
  raised for it, in the source or in the model.
- A VLSM plan whose blocks do not fit in the base block is not refused: the cursor wraps modulo 2^32,
  as `>>> 0` makes it, and blocks can then overlap. The model keeps the wrap (`CursorStep`), and the
  layout lemmas are stated for plans that fit.
- Page I/O is not modelled: DOM reads and writes, error display, table rows as HTML, tabs and
  modals, `window.activeCalc` dispatch. Form fields become parameters, and displayed values become
  record fields.
- CSV export and clipboard copy (`exportIPv4`, `copyIPv4`, `exportVLSM`, `copyVLSM`,
  `copySupernet`, `copyIPv6`, `copyBinary`) are left out as browser I/O.
- `calcAclWildcard` is left out as page code. It only displays `wildcardFromMask`, which is modelled.
- The DHCP reservation `Math.ceil(scope * 0.1)` is floating point and is left out. The scope itself
  is `usableHosts`, which is modelled.
- Prefix fields are typed `Prefix` (0 to 32). The NaN and out-of-range prefixes that `parseInt` can
  produce from the selectors are not modelled, and neither are the NaN comparisons they would cause.
- The numbers that `parseInt` yields are unbounded integers. Precision loss above 2^53 is not modelled.
- AddressCodec.ParseInt: its contract states only when a number results. The value is stated for
  digit strings only, by `ParseIntOfDigits`.
- The `parseCIDR` prefix is kept as `parseInt`'s `Option<int>`. The supernet sort's tie-break on it
  cannot change the order of the address keys, so the model sorts the keys only.
- `toLowerCase` is modelled on ASCII letters only, and `\s`/`trim` on the ECMAScript whitespace and
  line-terminator characters. Unicode case mapping is not modelled.
- A bad supernet entry makes `calcSupernet` throw with no handler. The model returns that error as
  `BadEntry`.
- Ipv6.CalcIpv6: the prefix is stated as `parseInt` reads it. The prefix field's range is not
  checked, as in the source.
- Ipv6.NormalizeIPv6: states cleanliness (with `ExpandedGroups` the group structure), not that every character other
  than whitespace is kept.
- `server.js`, `generate_favicons.py` and `tests/ui.spec.js` are not part of this model. They are an
  HTTP proxy, image drawing and UI visibility tests, and hold none of the arithmetic.
