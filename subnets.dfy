/**
 * The two subnetting kernels of app.js: `calculateIPv4`, which splits a
 * base block into equal subnets of a longer prefix and lists the first
 * fifty, and `calcVLSM`, which carves blocks sized for a list of host
 * requirements out of a base block, largest first.
 */
module SubnetPlanner {
  import opened Wrappers
  import opened Bits
  import opened Text
  import opened Sorting
  import opened AddressCodec
  import opened MaskArithmetic

  /** The gateway selector: the value "first" picks the first usable address, any other value the last. */
  datatype GatewayChoice = FirstUsable | LastUsable

  function GatewayChoiceOf(value: string): GatewayChoice
  {
    if value == "first" then FirstUsable else LastUsable
  }

  /** One row of a subnet table, every address as an unsigned word. */
  datatype AddressRange = AddressRange(network: U32, first: U32, last: U32, broadcast: U32, gateway: U32)

  datatype PlanError = BadAddress(error: AddressError) | PrefixOrder | NoHostRequests

  function PlanErrorMessage(e: PlanError): string
  {
    match e
    case BadAddress(a) => ErrorMessage(a)
    case PrefixOrder => "Desired prefix must be \U{2265} base prefix"
    case NoHostRequests => "Enter host requirements"
  }

  /** The messages differ, so the message shown names the error. */
  lemma PlanMessagesDistinct(a: PlanError, b: PlanError)
    requires PlanErrorMessage(a) == PlanErrorMessage(b)
    ensures a == b
  {
  }

  /** `Math.pow(2, 32 - p) >>> 0`: the number of addresses of a block, which wraps to 0 for /0. */
  function BlockSize(p: Prefix): (size: U32)
    ensures p > 0 ==> size == Pow2(32 - p)
    ensures p == 0 ==> size == 0
  {
    var h: nat := 32 - p;
    Pow2AtMostWord(h);
    if p == 0 then ToUint32(Pow2(h))
    else
      Pow2BelowWord(h);
      ToUint32(Pow2(h))
  }

  /** The row of the block at `network` with `size` addresses; every sum is taken modulo 2^32 as `>>> 0` does. */
  function RangeAt(network: U32, size: U32, gw: GatewayChoice): AddressRange
  {
    var broadcast := ToUint32(network as int + size - 1);
    var first := ToUint32(network as int + 1);
    var last := ToUint32(broadcast as int - 1);
    AddressRange(network, first, last, broadcast, if gw == FirstUsable then first else last)
  }

  /** An aligned block of prefix `p` ends at or before the top of the address space. */
  lemma BlockEnd(network: U32, p: Prefix)
    requires network % Pow2(32 - p) == 0
    ensures network as int + Pow2(32 - p) <= TWO32
  {
    var h: nat := 32 - p;
    Pow2Split(h);
    AlignedBelow(network, Pow2(h), Pow2(p));
  }

  /** A multiple of `size` below `size * count` leaves room for a whole block of `size` after it. */
  lemma AlignedBelow(x: int, size: int, count: int)
    requires size > 0 && 0 <= x < size * count && x % size == 0
    ensures x + size <= size * count
  {
    var q := x / size;
    ExactDiv(x, size);
    if q >= count {
      MulMonotone(count, q, size);
    }
    MulMonotone(q + 1, count, size);
  }

  /**
   * The row of an aligned block: the broadcast is its last address even for
   * /0, where the size wraps to 0; for prefixes up to /30 the usable range
   * lies strictly inside the block and counts `UsableHosts` addresses; for /31
   * the first usable address is the broadcast and the last one the network.
   */
  lemma RangeOfBlock(network: U32, p: Prefix, gw: GatewayChoice)
    requires network % Pow2(32 - p) == 0
    ensures var r := RangeAt(network, BlockSize(p), gw);
      && r.network == network
      && r.broadcast == network as int + Pow2(32 - p) - 1
      && InBlock(r.broadcast, network, p)
      && (p <= 30 ==>
            && r.first == network as int + 1 && r.last == r.broadcast as int - 1
            && InBlock(r.first, network, p) && InBlock(r.last, network, p)
            && r.last as int - r.first as int + 1 == UsableHosts(32 - p))
      && (p == 31 ==> r.first == r.broadcast && r.last == network)
      && r.gateway == (if gw == FirstUsable then r.first else r.last)
  {
    var r := RangeAt(network, BlockSize(p), gw);
    BlockEnd(network, p);
    RangeFits(network, p, gw);
    InBlockInterval(r.broadcast, network, p);
    if p <= 30 {
      UsableRange(network, r.broadcast, Pow2(32 - p), p, gw);
      InBlockInterval(r.first, network, p);
      InBlockInterval(r.last, network, p);
    } else if p == 31 {
      assert Pow2(32 - p) == 2;
    }
  }

  /** In a block of at least four addresses, the first and last usable addresses are inside it, one step from its ends. */
  lemma UsableRange(network: U32, broadcast: U32, size: int, p: Prefix, gw: GatewayChoice)
    requires p <= 30 && size == Pow2(32 - p)
    requires network as int + size <= TWO32 && broadcast == network as int + size - 1
    requires RangeAt(network, BlockSize(p), gw).broadcast == broadcast
    ensures var r := RangeAt(network, BlockSize(p), gw);
      && r.first == network as int + 1 && r.last == broadcast as int - 1
      && r.last as int - r.first as int + 1 == UsableHosts(32 - p)
  {
    Pow2Monotone(2, 32 - p);
    assert Pow2(2) == 4;
    Uint32Identity(network as int + 1);
    Uint32Identity(broadcast as int - 1);
  }

  // ---------------------------------------------------------------- calculateIPv4

  /** The number of rows the subnet table shows at most. */
  const MaxRows: nat := 50

  datatype Ipv4Report = Ipv4Report(
    hostBits: nat,
    usableHosts: nat,
    subnetBits: nat,
    numSubnets: nat,
    mask: string,
    wildcard: string,
    addressClass: string,
    isPrivate: bool,
    cidr: string,
    rows: seq<AddressRange>,
    truncated: bool)

  /** Row `k` of the table of /`d` subnets of the block at `baseNet`. */
  function SubnetRow(baseNet: U32, d: Prefix, k: nat, gw: GatewayChoice): AddressRange
  {
    RangeAt(ToUint32(baseNet as int + k * BlockSize(d)), BlockSize(d), gw)
  }

  /** `calculateIPv4` without the page: parse, check the prefixes, compute the summary and the first 50 subnets. */
  method CalculateIpv4(baseText: string, basePrefix: Prefix, desiredPrefix: Prefix, gwPref: string)
    returns (r: Result<Ipv4Report, PlanError>)
    ensures IpToOctets(baseText).Failure? ==> r == Failure(BadAddress(IpToOctets(baseText).error))
    ensures IpToOctets(baseText).Success? && desiredPrefix < basePrefix ==> r == Failure(PrefixOrder)
    ensures IpToOctets(baseText).Success? && desiredPrefix >= basePrefix ==>
      && r.Success?
      && var ip, rep := IpToOctets(baseText).value, r.value;
      && var baseNet := Network(ToInt(ip), basePrefix);
      && rep.hostBits == 32 - desiredPrefix
      && rep.usableHosts == UsableHosts(rep.hostBits)
      && rep.subnetBits == desiredPrefix - basePrefix
      && rep.numSubnets == Pow2(rep.subnetBits)
      && rep.mask == OctetsToIP(FromInt(MaskInt(desiredPrefix)))
      && rep.wildcard == OctetsToIP(FromInt(0xFFFF_FFFF - MaskInt(desiredPrefix)))
      && rep.addressClass == ClassLabel(ClassOfIP(ip))
      && rep.isPrivate == IsPrivateIP(ip)
      && rep.cidr == OctetsToIP(FromInt(baseNet)) + "/" + ToRadix(basePrefix, 10)
      && |rep.rows| == (if rep.numSubnets < MaxRows then rep.numSubnets else MaxRows)
      && (rep.truncated <==> rep.numSubnets > MaxRows)
      && forall k :: 0 <= k < |rep.rows| ==> rep.rows[k] == SubnetRow(baseNet, desiredPrefix, k, GatewayChoiceOf(gwPref))
  {
    var gw := GatewayChoiceOf(gwPref);
    var parsed := IpToOctets(baseText);
    if parsed.Failure? {
      return Failure(BadAddress(parsed.error));
    }
    if desiredPrefix < basePrefix {
      return Failure(PrefixOrder);
    }
    var ip := parsed.value;
    var baseInt := ToInt(ip);
    var baseNet := Network(baseInt, basePrefix);
    var subnetBits := desiredPrefix - basePrefix;
    var numSubnets := Pow2(subnetBits);
    var hostBits := 32 - desiredPrefix;
    var usableHosts := UsableHosts(hostBits);
    var mask := MaskFromPrefix(desiredPrefix);
    WildcardOfPrefix(desiredPrefix);
    var wildcard := WildcardFromMask(mask).value;
    var cidr := OctetsToIP(FromInt(baseNet)) + "/" + ToRadix(basePrefix, 10);
    var count := if numSubnets < MaxRows then numSubnets else MaxRows;
    var rows := SubnetTable(baseNet, desiredPrefix, count, gw);
    var report := Ipv4Report(hostBits, usableHosts, subnetBits, numSubnets, mask, wildcard,
                             ClassLabel(ClassOfIP(ip)), IsPrivateIP(ip), cidr, rows, numSubnets > MaxRows);
    return Success(report);
  }

  /** The loop of `calculateIPv4` that lists the first `count` subnets of the base block. */
  method SubnetTable(baseNet: U32, desiredPrefix: Prefix, count: nat, gw: GatewayChoice) returns (rows: seq<AddressRange>)
    ensures |rows| == count
    ensures forall k :: 0 <= k < count ==> rows[k] == SubnetRow(baseNet, desiredPrefix, k, gw)
  {
    var subnetSize := BlockSize(desiredPrefix);
    rows := [];
    for i := 0 to count
      invariant |rows| == i
      invariant forall k :: 0 <= k < i ==> rows[k] == SubnetRow(baseNet, desiredPrefix, k, gw)
    {
      var networkInt := ToUint32(baseNet as int + i * subnetSize);
      rows := rows + [RangeAt(networkInt, subnetSize, gw)];
    }
  }

  /** The network of subnet `k` is `k` blocks past the base network, with no wrap-around. */
  lemma SubnetNetwork(baseNet: U32, b: Prefix, d: Prefix, k: nat)
    requires baseNet % Pow2(32 - b) == 0 && b <= d && k < Pow2(d - b)
    ensures baseNet as int + k * Pow2(32 - d) + Pow2(32 - d) <= baseNet as int + Pow2(32 - b) <= TWO32
    ensures ToUint32(baseNet as int + k * BlockSize(d)) == baseNet as int + k * Pow2(32 - d)
    ensures (baseNet as int + k * Pow2(32 - d)) % Pow2(32 - d) == 0
  {
    SubnetTiles(baseNet, b, d, k);
    BlockSizeOrZero(b, d, k);
    NoWrap(baseNet, k, BlockSize(d), Pow2(32 - d), Pow2(32 - b));
  }

  /** A /0 split of a /0 block has only subnet 0; every other split steps by the block size. */
  lemma BlockSizeOrZero(b: Prefix, d: Prefix, k: nat)
    requires b <= d && k < Pow2(d - b)
    ensures k == 0 || BlockSize(d) == Pow2(32 - d)
  {
    if d == 0 {
      assert Pow2(0) == 1;
    }
  }

  /** `k` steps of `size` from `base` stay below 2^32 when they equal `k` steps of a block that fits. */
  lemma NoWrap(base: int, k: int, size: int, small: int, big: int)
    requires 0 <= base && 0 <= k * small && small >= 1
    requires base + k * small + small <= base + big <= TWO32
    requires k == 0 || size == small
    ensures ToUint32(base + k * size) == base + k * small
  {
    SameProduct(k, size, small);
  }

  /** The subnets tile the base block: subnet `k` starts on its own boundary and ends inside the base block. */
  lemma SubnetTiles(baseNet: U32, b: Prefix, d: Prefix, k: nat)
    requires baseNet % Pow2(32 - b) == 0 && b <= d && k < Pow2(d - b)
    ensures baseNet as int + k * Pow2(32 - d) + Pow2(32 - d) <= baseNet as int + Pow2(32 - b) <= TWO32
    ensures (baseNet as int + k * Pow2(32 - d)) % Pow2(32 - d) == 0
    ensures k * Pow2(32 - d) >= 0
  {
    var hd: nat, hb: nat, s: nat := 32 - d, 32 - b, d - b;
    var small, count, big := Pow2(hd), Pow2(s), Pow2(hb);
    Pow2Add(hd, s);
    BlockEnd(baseNet, b);
    MultipleOfFactor(baseNet, small, count);
    TileStep(baseNet, big, small, count, k);
  }

  lemma SameProduct(k: int, a: int, b: int)
    requires k == 0 || a == b
    ensures k * a == k * b
  {
  }

  lemma Uint32Identity(y: int)
    requires 0 <= y < TWO32
    ensures ToUint32(y) == y
  {
  }

  /** Stepping `k` blocks of `small` from a multiple of `small` inside a block of `count` of them. */
  lemma TileStep(net: int, big: int, small: int, count: int, k: int)
    requires small > 0 && big == small * count && 0 <= k < count
    requires net % small == 0
    ensures net + k * small + small <= net + big
    ensures (net + k * small) % small == 0
    ensures k * small >= 0
  {
    MulMonotone(k + 1, count, small);
    MultipleOfProduct(k, small);
    MultipleSum(net, k * small, small);
  }

  /** Subnet `k` of the /`d` split of an aligned base block starts `k` blocks past its start and spans one /`d` block. */
  lemma SubnetRowSpan(baseNet: U32, b: Prefix, d: Prefix, k: nat, gw: GatewayChoice)
    requires baseNet % Pow2(32 - b) == 0 && b <= d && k < Pow2(d - b)
    ensures var row := SubnetRow(baseNet, d, k, gw);
      && row.network == baseNet as int + k * Pow2(32 - d)
      && row.broadcast == row.network as int + Pow2(32 - d) - 1
  {
    SubnetNetwork(baseNet, b, d, k);
    var n: U32 := baseNet as int + k * Pow2(32 - d);
    assert SubnetRow(baseNet, d, k, gw) == RangeAt(n, BlockSize(d), gw);
    RangeFits(n, d, gw);
  }

  /** Subnet `k` of the /`d` split of an aligned base block is an aligned /`d` block: its own network under /`d`. */
  lemma SubnetRowAligned(baseNet: U32, b: Prefix, d: Prefix, k: nat, gw: GatewayChoice)
    requires baseNet % Pow2(32 - b) == 0 && b <= d && k < Pow2(d - b)
    ensures var row := SubnetRow(baseNet, d, k, gw);
      Network(row.network, d) == row.network
  {
    SubnetNetwork(baseNet, b, d, k);
    SubnetRowSpan(baseNet, b, d, k, gw);
    NetworkFixed(baseNet as int + k * Pow2(32 - d), d);
  }

  /** Subnet `k` of the /`d` split of an aligned base block lies inside the base block. */
  lemma SubnetRowInBase(baseNet: U32, b: Prefix, d: Prefix, k: nat, gw: GatewayChoice)
    requires baseNet % Pow2(32 - b) == 0 && b <= d && k < Pow2(d - b)
    ensures var row := SubnetRow(baseNet, d, k, gw);
      InBlock(row.network, baseNet, b) && InBlock(row.broadcast, baseNet, b)
  {
    SubnetNetwork(baseNet, b, d, k);
    SubnetRowSpan(baseNet, b, d, k, gw);
    var row := SubnetRow(baseNet, d, k, gw);
    var size, top := Pow2(32 - d), baseNet as int + Pow2(32 - b);
    var start := baseNet as int + k * size;
    assert row.network == start && row.broadcast == start + size - 1;
    assert baseNet <= start && start + size <= top;
    InBlockInterval(row.network, baseNet, b);
    InBlockInterval(row.broadcast, baseNet, b);
  }

  /** Every address of the base block lies in the subnet whose index is its offset divided by the subnet size. */
  lemma SubnetOfAddress(baseNet: U32, b: Prefix, d: Prefix, y: U32, gw: GatewayChoice)
    requires baseNet % Pow2(32 - b) == 0 && b <= d && InBlock(y, baseNet, b)
    ensures var k := (y - baseNet) / Pow2(32 - d);
      && 0 <= k < Pow2(d - b)
      && SubnetRow(baseNet, d, k, gw).network <= y <= SubnetRow(baseNet, d, k, gw).broadcast
  {
    var hd: nat, hb: nat, s: nat := 32 - d, 32 - b, d - b;
    var small, count := Pow2(hd), Pow2(s);
    var t := y - baseNet;
    assert 0 <= t < small * count by {
      InBlockInterval(y, baseNet, b);
      Pow2Add(hd, s);
      assert hd + s == hb;
    }
    var k := t / small;
    IndexInBlock(t, small, count, k);
    SubnetRowSpan(baseNet, b, d, k, gw);
    var row := SubnetRow(baseNet, d, k, gw);
    assert row.network == baseNet as int + k * small;
    assert row.broadcast == row.network as int + small - 1;
  }

  /** An offset below `count` blocks of `small` lies in the block its quotient names. */
  lemma IndexInBlock(t: int, small: int, count: int, k: int)
    requires small > 0 && 0 <= t < small * count && k == t / small
    ensures 0 <= k < count
    ensures k * small <= t < k * small + small
  {
    if k >= count {
      MulMonotone(count, k, small);
    }
  }

  // ---------------------------------------------------------------- calcVLSM

  /** The numbers of a comma-separated list, as `parseInt(x.trim(), 10)` reads each field. */
  function FieldValues(text: string): seq<Option<int>>
  {
    var fields := Split(text, ",");
    seq(|fields|, i requires 0 <= i < |fields| => ParseInt(Trim(fields[i])))
  }

  /** `filter(x => !isNaN(x) && x > 0)`, counted value by value. */
  function Positives(values: seq<Option<int>>): (r: seq<int>)
    ensures forall h :: h > 0 ==> multiset(r)[h] == multiset(values)[Some(h)]
    ensures forall h :: h <= 0 ==> multiset(r)[h] == 0
  {
    if |values| == 0 then []
    else
      var head := if values[0].Some? && values[0].value > 0 then [values[0].value] else [];
      assert values == [values[0]] + values[1..];
      head + Positives(values[1..])
  }

  /** The host requirements of a VLSM request: the positive numbers of the list, largest first. */
  function HostRequests(text: string): (r: seq<int>)
    ensures SortedBy(r, Descending)
    ensures forall h :: h > 0 ==> multiset(r)[h] == multiset(FieldValues(text))[Some(h)]
    ensures forall k :: 0 <= k < |r| ==> r[k] > 0
  {
    var positives := Positives(FieldValues(text));
    var r := Sort(positives, Descending);
    assert forall k :: 0 <= k < |r| ==> r[k] > 0 by {
      forall k | 0 <= k < |r|
        ensures r[k] > 0
      {
        assert r[k] in multiset(r);
      }
    }
    r
  }

  /** The plan depends on the numbers of the host list, not on their order. */
  lemma HostOrderIrrelevant(text1: string, text2: string)
    requires multiset(FieldValues(text1)) == multiset(FieldValues(text2))
    ensures HostRequests(text1) == HostRequests(text2)
  {
    var p1, p2 := Positives(FieldValues(text1)), Positives(FieldValues(text2));
    assert multiset(p1) == multiset(p2) by {
      forall h
        ensures multiset(p1)[h] == multiset(p2)[h]
      {
      }
    }
    SortOrderIndependent(p1, p2, Descending);
  }

  /** The prefix of the smallest block for each request, in request order. */
  function BlockPrefixes(reqs: seq<int>): (prefs: seq<Prefix>)
    ensures |prefs| == |reqs|
    ensures forall k :: 0 <= k < |reqs| ==> prefs[k] == PrefixForHosts(reqs[k])
  {
    seq(|reqs|, k requires 0 <= k < |reqs| => PrefixForHosts(reqs[k]))
  }

  /** The addresses taken by the first `k` blocks of a plan with block prefixes `prefs`. */
  function Offset(prefs: seq<Prefix>, k: nat): nat
    requires k <= |prefs|
  {
    if k == 0 then 0
    else
      var h: nat := 32 - prefs[k - 1];
      Offset(prefs, k - 1) + Pow2(h)
  }

  datatype Allocation = Allocation(hosts: int, prefix: Prefix, range: AddressRange)

  /** The plan: one allocation per request and the last request whose block is coarser than the base block. */
  datatype VlsmPlan = VlsmPlan(allocations: seq<Allocation>, warning: Option<int>)

  /** Block `k` of a plan with block prefixes `prefs`: it starts at the base advanced by the earlier blocks, modulo 2^32. */
  function PlacedRange(baseNet: U32, prefs: seq<Prefix>, k: nat, gw: GatewayChoice): AddressRange
    requires k < |prefs|
  {
    RangeAt(Cursor(baseNet, prefs, k), BlockSize(prefs[k]), gw)
  }

  /** Where block `k` starts: the base network advanced by the first `k` blocks, modulo 2^32. */
  function Cursor(baseNet: U32, prefs: seq<Prefix>, k: nat): U32
    requires k <= |prefs|
  {
    ToUint32(baseNet as int + Offset(prefs, k))
  }

  /** Allocation `k`: the smallest block for request `k`, placed right after the blocks before it. */
  function AllocationAt(baseNet: U32, reqs: seq<int>, k: nat, gw: GatewayChoice): Allocation
    requires k < |reqs|
  {
    var prefs := BlockPrefixes(reqs);
    Allocation(reqs[k], prefs[k], PlacedRange(baseNet, prefs, k, gw))
  }

  /** The last of the first `k` requests whose block prefix in `prefs` is shorter than the base prefix `b`, if any. */
  function LastCoarse(reqs: seq<int>, prefs: seq<Prefix>, k: nat, b: Prefix): Option<int>
    requires k <= |reqs| == |prefs|
  {
    if k == 0 then None
    else if prefs[k - 1] < b then Some(reqs[k - 1])
    else LastCoarse(reqs, prefs, k - 1, b)
  }

  /**
   * The warning is absent exactly when every block fits the base prefix;
   * otherwise it names a coarse request after which every block fits.
   */
  lemma {:induction false} LastCoarseMeaning(reqs: seq<int>, prefs: seq<Prefix>, k: nat, b: Prefix)
    requires k <= |reqs| == |prefs|
    ensures LastCoarse(reqs, prefs, k, b).None? <==> forall j :: 0 <= j < k ==> prefs[j] >= b
    ensures LastCoarse(reqs, prefs, k, b).Some? ==>
      exists i :: 0 <= i < k && reqs[i] == LastCoarse(reqs, prefs, k, b).value && prefs[i] < b
                  && forall j :: i < j < k ==> prefs[j] >= b
  {
    if k > 0 {
      LastCoarseMeaning(reqs, prefs, k - 1, b);
      if prefs[k - 1] >= b && LastCoarse(reqs, prefs, k - 1, b).Some? {
        var i :| 0 <= i < k - 1 && reqs[i] == LastCoarse(reqs, prefs, k - 1, b).value && prefs[i] < b
                 && forall j :: i < j < k - 1 ==> prefs[j] >= b;
        assert forall j :: i < j < k ==> prefs[j] >= b;
      }
    }
  }

  /** `calcVLSM` without the page. */
  method PlanVlsm(baseText: string, basePrefix: Prefix, hostsText: string, gwPref: string)
    returns (r: Result<VlsmPlan, PlanError>)
    ensures IpToOctets(baseText).Failure? ==> r == Failure(BadAddress(IpToOctets(baseText).error))
    ensures IpToOctets(baseText).Success? && HostRequests(hostsText) == [] ==> r == Failure(NoHostRequests)
    ensures IpToOctets(baseText).Success? && HostRequests(hostsText) != [] ==>
      && r.Success?
      && var reqs, plan := HostRequests(hostsText), r.value;
      && var baseNet := Network(ToInt(IpToOctets(baseText).value), basePrefix);
      && |plan.allocations| == |reqs|
      && (forall k :: 0 <= k < |reqs| ==> plan.allocations[k] == AllocationAt(baseNet, reqs, k, GatewayChoiceOf(gwPref)))
      && plan.warning == LastCoarse(reqs, BlockPrefixes(reqs), |reqs|, basePrefix)
  {
    var gw := GatewayChoiceOf(gwPref);
    var parsed := IpToOctets(baseText);
    if parsed.Failure? {
      return Failure(BadAddress(parsed.error));
    }
    var hostList := HostRequests(hostsText);
    if |hostList| == 0 {
      return Failure(NoHostRequests);
    }
    var baseInt := ToInt(parsed.value);
    var baseNet := Network(baseInt, basePrefix);
    var plan := AllocateBlocks(baseNet, basePrefix, hostList, gw);
    return Success(plan);
  }

  /** The loop of `calcVLSM`: place each block at the cursor, advance it by the block size, remember the last coarse request. */
  method AllocateBlocks(baseNet: U32, basePrefix: Prefix, hostList: seq<int>, gw: GatewayChoice) returns (plan: VlsmPlan)
    ensures |plan.allocations| == |hostList|
    ensures forall k :: 0 <= k < |hostList| ==> plan.allocations[k] == AllocationAt(baseNet, hostList, k, gw)
    ensures plan.warning == LastCoarse(hostList, BlockPrefixes(hostList), |hostList|, basePrefix)
  {
    var current := baseNet;
    var allocations: seq<Allocation> := [];
    var warning: Option<int> := None;
    ghost var prefs := BlockPrefixes(hostList);
    for i := 0 to |hostList|
      invariant |allocations| == i
      invariant current == Cursor(baseNet, prefs, i)
      invariant forall k {:trigger allocations[k]} :: 0 <= k < i ==>
        allocations[k] == Allocation(hostList[k], prefs[k], PlacedRange(baseNet, prefs, k, gw))
      invariant warning == LastCoarse(hostList, prefs, i, basePrefix)
    {
      var h := hostList[i];
      var pref := SmallestPrefixForHosts(h);
      assert pref == prefs[i];
      assert LastCoarse(hostList, prefs, i + 1, basePrefix) == if pref < basePrefix then Some(h) else warning;
      if pref < basePrefix {
        warning := Some(h);
      }
      var subnetSize := BlockSize(pref);
      var entry := Allocation(h, pref, RangeAt(current, subnetSize, gw));
      assert entry == Allocation(hostList[i], prefs[i], PlacedRange(baseNet, prefs, i, gw));
      allocations := allocations + [entry];
      CursorStep(baseNet, prefs, i, current, subnetSize);
      current := ToUint32(current as int + subnetSize);
    }
    plan := VlsmPlan(allocations, warning);
  }

  /** Advancing the cursor by one block size modulo 2^32 keeps it at the base plus the offset, modulo 2^32. */
  lemma CursorStep(baseNet: U32, prefs: seq<Prefix>, i: nat, current: U32, size: U32)
    requires i < |prefs|
    requires current == Cursor(baseNet, prefs, i)
    requires size == BlockSize(prefs[i])
    ensures ToUint32(current as int + size) == Cursor(baseNet, prefs, i + 1)
  {
    var p := prefs[i];
    Pow2AtMostWord(32 - p);
    WrapAdvance(current, baseNet as int + Offset(prefs, i), size, Pow2(32 - p),
                baseNet as int + Offset(prefs, i + 1));
  }

  /** Adding a block size modulo 2^32 to `a` reduced modulo 2^32 gives `a` plus the block, reduced. */
  lemma WrapAdvance(c: int, a: int, size: int, step: int, target: int)
    requires c == ToUint32(a)
    requires target == a + step
    requires size == step || (size == 0 && step == TWO32)
    ensures ToUint32(c + size) == ToUint32(target)
  {
    if size == step {
      ModShift(a, step, 0);
    } else {
      ModShift(a, 0, 1);
    }
  }

  lemma ModShift(a: int, b: int, n: int)
    ensures (a % TWO32 + b) % TWO32 == (a + b + n * TWO32) % TWO32
  {
    var q := a / TWO32;
    var x := a % TWO32 + b;
    DivModUnique(a + b + n * TWO32, TWO32, x / TWO32 + q + n, x % TWO32);
  }

  lemma {:induction false} OffsetMonotone(prefs: seq<Prefix>, j: nat, k: nat)
    requires j <= k <= |prefs|
    ensures Offset(prefs, j) + (k - j) <= Offset(prefs, k)
    decreases k
  {
    if j < k {
      OffsetMonotone(prefs, j, k - 1);
    }
  }

  /**
   * When the blocks of a plan fit in the base block, block `k` covers
   * exactly the addresses from offset `k` to offset `k + 1` of the base
   * block, so the blocks are consecutive, ascending and inside it.
   */
  lemma VlsmLayout(baseNet: U32, b: Prefix, prefs: seq<Prefix>, k: nat, gw: GatewayChoice)
    requires baseNet % Pow2(32 - b) == 0
    requires Offset(prefs, |prefs|) <= Pow2(32 - b)
    requires k < |prefs|
    ensures var a := PlacedRange(baseNet, prefs, k, gw);
      && a.network == baseNet as int + Offset(prefs, k)
      && a.broadcast == baseNet as int + Offset(prefs, k + 1) - 1
      && InBlock(a.network, baseNet, b)
      && InBlock(a.broadcast, baseNet, b)
  {
    var p := prefs[k];
    var off, next := Offset(prefs, k), Offset(prefs, k + 1);
    assert next == off + Pow2(32 - p);
    assert next <= Pow2(32 - b) by {
      OffsetMonotone(prefs, k + 1, |prefs|);
    }
    assert PlacedRange(baseNet, prefs, k, gw) == RangeAt(ToUint32(baseNet as int + off), BlockSize(p), gw);
    PlacedBlock(baseNet, b, p, off, next, gw);
  }

  /** A /`p` block placed at offset `off` of an aligned /`b` block, ending by its end, lies inside it without wrapping. */
  lemma PlacedBlock(baseNet: U32, b: Prefix, p: Prefix, off: int, next: int, gw: GatewayChoice)
    requires baseNet % Pow2(32 - b) == 0 && 0 <= off
    requires next == off + Pow2(32 - p) && next <= Pow2(32 - b)
    ensures var n := ToUint32(baseNet as int + off);
      var a := RangeAt(n, BlockSize(p), gw);
      && n == baseNet as int + off
      && a.network == n
      && a.broadcast == baseNet as int + next - 1
      && InBlock(a.network, baseNet, b)
      && InBlock(a.broadcast, baseNet, b)
  {
    BlockEnd(baseNet, b);
    var n := baseNet as int + off;
    Uint32Identity(n);
    RangeFits(n, p, gw);
    var a := RangeAt(n, BlockSize(p), gw);
    InBlockInterval(a.network, baseNet, b);
    InBlockInterval(a.broadcast, baseNet, b);
  }

  /** A block that ends at or before the top of the address space has its broadcast at its last address. */
  lemma RangeFits(network: U32, p: Prefix, gw: GatewayChoice)
    requires network as int + Pow2(32 - p) <= TWO32
    ensures RangeAt(network, BlockSize(p), gw).broadcast == network as int + Pow2(32 - p) - 1
  {
    Pow2AtMostWord(32 - p);
  }

  /** Earlier blocks end before later ones start, so no two blocks of a plan share an address. */
  lemma VlsmDisjoint(baseNet: U32, b: Prefix, prefs: seq<Prefix>, j: nat, k: nat, gw: GatewayChoice)
    requires baseNet % Pow2(32 - b) == 0
    requires Offset(prefs, |prefs|) <= Pow2(32 - b)
    requires j < k < |prefs|
    ensures PlacedRange(baseNet, prefs, j, gw).broadcast < PlacedRange(baseNet, prefs, k, gw).network
  {
    VlsmLayout(baseNet, b, prefs, j, gw);
    VlsmLayout(baseNet, b, prefs, k, gw);
    OffsetMonotone(prefs, j + 1, k);
  }

  /**
   * A block no larger than the blocks before it and no larger than the
   * aligned base block starts on a boundary of its own size (modulo 2^32),
   * so it is a proper CIDR block.
   */
  lemma VlsmAligned(baseNet: U32, b: Prefix, prefs: seq<Prefix>, k: nat, gw: GatewayChoice)
    requires baseNet % Pow2(32 - b) == 0
    requires k < |prefs| && b <= prefs[k]
    requires forall j :: 0 <= j < k ==> prefs[j] <= prefs[k]
    ensures var a := PlacedRange(baseNet, prefs, k, gw);
      Network(a.network, prefs[k]) == a.network
  {
    var p := prefs[k];
    var h: nat, hb: nat := 32 - p, 32 - b;
    OffsetAligned(prefs, k, p);
    MultipleOfPow2(baseNet, h, hb);
    MultipleSum(baseNet, Offset(prefs, k), Pow2(h));
    WrapMultiple(baseNet as int + Offset(prefs, k), p);
    var n := Cursor(baseNet, prefs, k);
    assert PlacedRange(baseNet, prefs, k, gw).network == n;
    NetworkFixed(n, p);
  }

  /** With the requests largest first and none larger than the address space, the blocks grow no larger along the plan. */
  lemma BlockPrefixesAscending(reqs: seq<int>)
    requires SortedBy(reqs, Descending)
    requires forall j :: 0 <= j < |reqs| ==> reqs[j] <= TWO32 - 2
    ensures var prefs := BlockPrefixes(reqs);
      forall j, k :: 0 <= j < k < |prefs| ==> prefs[j] <= prefs[k]
  {
    var prefs := BlockPrefixes(reqs);
    forall j, k | 0 <= j < k < |prefs|
      ensures prefs[j] <= prefs[k]
    {
      PrefixForHostsMonotone(reqs[k], reqs[j]);
    }
  }

  lemma {:induction false} OffsetAligned(prefs: seq<Prefix>, k: nat, q: Prefix)
    requires k <= |prefs|
    requires forall j :: 0 <= j < k ==> prefs[j] <= q
    ensures Offset(prefs, k) % Pow2(32 - q) == 0
  {
    if k == 0 {
      MultipleOfProduct(0, Pow2(32 - q));
    } else {
      OffsetAligned(prefs, k - 1, q);
      var hq: nat, h: nat := 32 - q, 32 - prefs[k - 1];
      var e: nat := h - hq;
      Pow2Add(e, hq);
      assert Pow2(h) == Pow2(e) * Pow2(hq);
      var before := Offset(prefs, k - 1);
      assert Offset(prefs, k) == before + Pow2(h);
      AddMultiple(before, Pow2(h), Pow2(e), Pow2(hq));
    }
  }

  lemma AddMultiple(a: int, x: int, e: int, m: int)
    requires m > 0 && a % m == 0 && x == e * m
    ensures (a + x) % m == 0
  {
    MultipleOfProduct(e, m);
    MultipleSum(a, x, m);
  }

  lemma MultipleOfPow2(x: int, small: nat, big: nat)
    requires small <= big && x % Pow2(big) == 0
    ensures x % Pow2(small) == 0
  {
    Pow2Add(small, big - small);
    MultipleOfFactor(x, Pow2(small), Pow2(big - small));
  }

  /** Reducing modulo 2^32 keeps a multiple of a block size a multiple of it. */
  lemma WrapMultiple(x: int, p: Prefix)
    requires x % Pow2(32 - p) == 0
    ensures ToUint32(x) % Pow2(32 - p) == 0
  {
    var h: nat := 32 - p;
    Pow2Split(h);
    WrapMultipleOf(x, Pow2(h), Pow2(p));
  }

  lemma WrapMultipleOf(x: int, size: int, count: int)
    requires size > 0 && count > 0 && size * count == TWO32 && x % size == 0
    ensures (x % TWO32) % size == 0
  {
    var q := x / TWO32;
    DivModSplitTwo32(x);
    assert x % TWO32 == x + (-q * count) * size;
    MultipleOfProduct(-q * count, size);
    MultipleSum(x, (-q * count) * size, size);
  }

  lemma DivModSplitTwo32(x: int)
    ensures x == x / TWO32 * TWO32 + x % TWO32
  {
  }
}
