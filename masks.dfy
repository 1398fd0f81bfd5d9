/**
 * Masks, wildcards, classful and private-range classification, binary
 * octet text and the host-count prefix search of app.js
 * (`maskFromPrefix`, `wildcardFromMask`, `classOfIP`, `isPrivateIP`,
 * `maskInt`, `bitsOfOctet`, `smallestPrefixForHosts`).
 */
module MaskArithmetic {
  import opened Wrappers
  import opened Bits
  import opened Text
  import opened AddressCodec

  /** `(x << s) >>> 0` for a shift count below 32: the bits shifted past bit 31 are lost. */
  function ShiftLeft(x: U32, s: nat): U32
    requires s < 32
  {
    (x * Pow2(s)) % TWO32
  }

  /** `maskInt`: the subnet mask of prefix `p` as an unsigned word. */
  function MaskInt(p: Prefix): (m: U32)
    ensures m == TWO32 - Pow2(32 - p)
    ensures p == 0 ==> m == 0
    ensures p == 32 ==> m == 0xFFFF_FFFF
  {
    var s: nat := 32 - p;
    Pow2AtMostWord(s);
    if p == 0 then 0
    else
      ShiftedOnes(s);
      ShiftLeft(0xFFFF_FFFF, s)
  }

  lemma ShiftedOnes(s: nat)
    requires s < 32
    ensures (0xFFFF_FFFF * Pow2(s)) % TWO32 == TWO32 - Pow2(s)
  {
    Pow2BelowWord(s);
    DivModUnique(0xFFFF_FFFF * Pow2(s), TWO32, Pow2(s) - 1, TWO32 - Pow2(s));
  }

  /** The mask has exactly its top `p` bits set. */
  lemma MaskIntBits(p: Prefix, i: nat)
    requires i < 32
    ensures Bit(MaskInt(p), i) == if i >= 32 - p then 1 else 0
  {
    var h: nat := 32 - p;
    var m := MaskInt(p);
    var a := Pow2(i);
    assert Pow2(32 - i) == 2 * Pow2(31 - i);
    if i < h {
      assert (m / a) % 2 == 0 by {
        var e: nat := h - i - 1;
        assert Pow2(h - i) == 2 * Pow2(e);
        Pow2Split(i);
        Pow2Add(i, h - i);
        EvenQuotient(m, a, Pow2(32 - i), Pow2(h - i), Pow2(31 - i), Pow2(e));
      }
    } else {
      assert (m / a) % 2 == 1 by {
        Pow2Monotone(h, i);
        Pow2Split(i);
        OddQuotient(m, a, Pow2(32 - i), Pow2(h), Pow2(31 - i));
      }
    }
  }

  /** Removing a smaller even multiple of `a` from an even multiple of `a` leaves an even quotient. */
  lemma EvenQuotient(m: int, a: int, b: int, c: int, x: int, y: int)
    requires a > 0 && m == a * b - a * c && b == 2 * x && c == 2 * y
    ensures (m / a) % 2 == 0
  {
    ExactQuotient(m, a, b, c);
    EvenDifference(x, y);
  }

  /** Removing at most `a` from an even multiple of `a` leaves an odd quotient. */
  lemma OddQuotient(m: int, a: int, b: int, c: int, x: int)
    requires 0 < c <= a && m == a * b - c && b == 2 * x && x >= 1
    ensures (m / a) % 2 == 1
  {
    QuotientBelow(m, a, b, c);
    OddPredecessor(x);
  }

  lemma ExactQuotient(m: int, a: int, b: int, c: int)
    requires a > 0 && m == a * b - a * c
    ensures m / a == b - c
  {
    DivModUnique(m, a, b - c, 0);
  }

  lemma QuotientBelow(m: int, a: int, b: int, c: int)
    requires 0 < c <= a && m == a * b - c
    ensures m / a == b - 1
  {
    DivModUnique(m, a, b - 1, a - c);
  }

  lemma EvenDifference(x: int, y: int)
    ensures (2 * x - 2 * y) % 2 == 0
  {
    DivModUnique(2 * x - 2 * y, 2, x - y, 0);
  }

  lemma OddPredecessor(x: int)
    requires x >= 1
    ensures (2 * x - 1) % 2 == 1
  {
    DivModUnique(2 * x - 1, 2, x - 1, 1);
  }

  /** `(x & maskInt(p)) >>> 0`: the network address of `x` under prefix `p`. */
  function Network(x: U32, p: Prefix): (n: U32)
    ensures n == High(x, p) * Pow2(32 - p)
    ensures n <= x < n as int + Pow2(32 - p)
  {
    var h: nat := 32 - p;
    Pow2Word();
    BitAndLowMask(x, 32, h, MaskInt(p));
    FloorMultiple(x, Pow2(h));
    BitAnd(x, MaskInt(p))
  }

  lemma FloorMultiple(x: nat, d: nat)
    requires d > 0
    ensures x / d * d <= x < x / d * d + d
  {
  }

  /** `x` lies in the block of prefix `p` that contains `net`. */
  predicate InBlock(x: U32, net: U32, p: Prefix)
  {
    High(x, p) == High(net, p)
  }

  /** A word is its own network under prefix `p` exactly when its `32 - p` host bits are zero. */
  lemma NetworkFixed(w: U32, p: Prefix)
    ensures Network(w, p) == w <==> w % Pow2(32 - p) == 0
  {
    var d: nat := 32 - p;
    var size := Pow2(d);
    assert Network(w, p) == w / size * size;
    if w % size == 0 {
      ExactDiv(w, size);
    } else {
      MultipleOfProduct(w / size, size);
    }
  }

  /** The block of an aligned network is the interval of `2^(32 - p)` addresses starting at it. */
  lemma InBlockInterval(y: U32, net: U32, p: Prefix)
    requires net % Pow2(32 - p) == 0
    ensures InBlock(y, net, p) <==> net <= y < net as int + Pow2(32 - p)
  {
    var d: nat := 32 - p;
    SameQuotient(y, net, Pow2(d));
  }

  /** Below a multiple `net` of `size`, exactly the next `size` numbers share its quotient. */
  lemma SameQuotient(y: nat, net: nat, size: int)
    requires size > 0 && net % size == 0
    ensures y / size == net / size <==> net <= y < net + size
  {
    var q := net / size;
    DivModUnique(net, size, q, 0);
    if net <= y < net + size {
      DivModUnique(y, size, q, y - net);
    } else {
      FloorMultiple(y, size);
    }
  }

  /** Two addresses share a block exactly when masking gives the same network. */
  lemma InBlockNetwork(x: U32, y: U32, p: Prefix)
    ensures InBlock(x, y, p) <==> Network(x, p) == Network(y, p)
  {
    var d: nat := 32 - p;
    if Network(x, p) == Network(y, p) {
      assert High(x, p) * Pow2(d) == High(y, p) * Pow2(d);
      MulCancel(High(x, p), High(y, p), Pow2(d));
    }
  }

  lemma MulCancel(a: int, b: int, c: int)
    requires c > 0 && a * c == b * c
    ensures a == b
  {
  }

  /** The per-octet complement `255 - o[i]`. */
  function Complement(o: Quad): (w: Quad)
    ensures forall i :: 0 <= i < 4 ==> w[i] as int + o[i] == 255
    ensures ToInt(w) == 0xFFFF_FFFF - ToInt(o)
  {
    [255 - o[0], 255 - o[1], 255 - o[2], 255 - o[3]]
  }

  /** `wildcardFromMask`: parse the mask text and complement every octet. */
  function WildcardFromMask(mask: string): (r: Result<string, AddressError>)
    ensures r.Failure? <==> IpToOctets(mask).Failure?
    ensures r.Failure? ==> r.error == IpToOctets(mask).error
    ensures r.Success? ==> IpToOctets(r.value) == Success(Complement(IpToOctets(mask).value))
  {
    var o :- IpToOctets(mask);
    Success(OctetsToIP(Complement(o)))
  }

  /** The wildcard of a prefix's mask is the word of its `32 - p` host bits. */
  lemma WildcardOfPrefix(p: Prefix)
    ensures WildcardFromMask(OctetsToIP(FromInt(MaskInt(p)))) == Success(OctetsToIP(FromInt(0xFFFF_FFFF - MaskInt(p))))
  {
    var mask := FromInt(MaskInt(p));
    ToIntFromInt(MaskInt(p));
    var w := Complement(mask);
    assert FromInt(ToInt(w)) == w;
  }

  /** `maskFromPrefix`: the mask text, built bit by bit from an array of 32 bits. */
  method MaskFromPrefix(prefix: Prefix) returns (mask: string)
    ensures mask == OctetsToIP(FromInt(MaskInt(prefix)))
  {
    var bits := new int[32](k => if k < prefix then 1 else 0);
    var octets := new Octet[4];
    for i := 0 to 4
      modifies octets
      invariant forall k :: 0 <= k < i ==> octets[k] == FromInt(MaskInt(prefix))[k]
    {
      var val := PackOctet(bits, i, prefix);
      octets[i] := val;
    }
    mask := OctetsToIP([octets[0], octets[1], octets[2], octets[3]]);
  }

  /** The inner loop of `maskFromPrefix`: shift the eight bits of octet `i` into a value, most significant first. */
  method PackOctet(bits: array<int>, i: nat, ghost prefix: Prefix) returns (val: Octet)
    requires bits.Length == 32 && i < 4
    requires forall k :: 0 <= k < 32 ==> bits[k] == if k < prefix then 1 else 0
    ensures val == FromInt(MaskInt(prefix))[i]
  {
    ghost var m := MaskInt(prefix);
    var v := 0;
    for j := 0 to 8
      invariant v == (m / Pow2(32 - 8 * i - j)) % Pow2(j)
    {
      var e: nat := 31 - 8 * i - j;
      MaskIntBits(prefix, e);
      OctetStep(m, e, j);
      // (val << 1) | bit, where the shifted value is even and the bit is 0 or 1
      v := 2 * v + bits[8 * i + j];
    }
    OctetOfWord(m, i);
    val := v;
  }

  lemma OctetStep(m: nat, e: nat, j: nat)
    ensures (m / Pow2(e)) % Pow2(j + 1) == 2 * ((m / Pow2(e + 1)) % Pow2(j)) + Bit(m, e)
  {
    DivDiv(m, Pow2(e), 2);
    ModPow2Step(m / Pow2(e), j);
  }

  lemma OctetOfWord(m: U32, i: nat)
    requires i < 4
    ensures (m / Pow2(24 - 8 * i)) % Pow2(8) == FromInt(m)[i]
  {
    Pow2Values();
    assert Pow2(0) == 1;
  }

  datatype AddressClass = ClassA | Loopback | ClassB | ClassC | MulticastD | ExperimentalE | Unknown

  function ClassLabel(c: AddressClass): string
  {
    match c
    case ClassA => "Class A"
    case Loopback => "Loopback"
    case ClassB => "Class B"
    case ClassC => "Class C"
    case MulticastD => "Multicast (D)"
    case ExperimentalE => "Experimental (E)"
    case Unknown => "Unknown"
  }

  /** The labels differ, so the label shown names the class. */
  lemma ClassLabelsDistinct(a: AddressClass, b: AddressClass)
    requires ClassLabel(a) == ClassLabel(b)
    ensures a == b
  {
  }

  /** `classOfIP`: the class of an address, read from its first octet. */
  function ClassOfIP(o: Quad): AddressClass
  {
    var a := o[0];
    if 1 <= a <= 126 then ClassA
    else if a == 127 then Loopback
    else if 128 <= a <= 191 then ClassB
    else if 192 <= a <= 223 then ClassC
    else if 224 <= a <= 239 then MulticastD
    else if a >= 240 then ExperimentalE
    else Unknown
  }

  /** The top eight bits of an address are its first octet, the top sixteen its first two. */
  lemma HighOctets(o: Quad)
    ensures High(ToInt(o), 8) == o[0]
    ensures High(ToInt(o), 12) == o[0] as int * 16 + o[1] / 16
    ensures High(ToInt(o), 16) == o[0] as int * 256 + o[1]
  {
    var x, low := ToInt(o), o[2] as int * 256 + o[3];
    Pow2Values();
    assert Pow2(20) == 1048576;
    DivModUnique(x, 16777216, o[0], o[1] as int * 65536 + low);
    DivModUnique(x, 1048576, o[0] as int * 16 + o[1] / 16, (o[1] % 16) * 65536 + low);
    DivModUnique(x, 65536, o[0] as int * 256 + o[1], low);
  }

  /** The classes are the classful leading-bit patterns 0, 10, 110, 1110 and 1111. */
  lemma ClassLeadingBits(o: Quad)
    ensures var x := ToInt(o);
      && (ClassOfIP(o) == Unknown <==> High(x, 8) == 0)
      && (ClassOfIP(o) == Loopback <==> High(x, 8) == 127)
      && (ClassOfIP(o) == ClassA <==> High(x, 1) == 0 && High(x, 8) != 0 && High(x, 8) != 127)
      && (ClassOfIP(o) == ClassB <==> High(x, 2) == 2)
      && (ClassOfIP(o) == ClassC <==> High(x, 3) == 6)
      && (ClassOfIP(o) == MulticastD <==> High(x, 4) == 14)
      && (ClassOfIP(o) == ExperimentalE <==> High(x, 4) == 15)
  {
    FirstOctetBits(o);
  }

  /** The top one to four bits of an address and its top eight bits, read off the first octet. */
  lemma FirstOctetBits(o: Quad)
    ensures var x, a := ToInt(o), o[0];
      && High(x, 1) == a / 128 && High(x, 2) == a / 64 && High(x, 3) == a / 32
      && High(x, 4) == a / 16 && High(x, 8) == a
  {
    HighOctets(o);
    FirstOctetHigh(o, 1);
    FirstOctetHigh(o, 2);
    FirstOctetHigh(o, 3);
    FirstOctetHigh(o, 4);
    SmallPowers();
  }

  lemma SmallPowers()
    ensures Pow2(4) == 16 && Pow2(5) == 32 && Pow2(6) == 64 && Pow2(7) == 128
  {
    assert Pow2(4) == 16;
  }

  /** The top `k` bits of an address, for `k` up to eight, are the top `k` bits of its first octet. */
  lemma FirstOctetHigh(o: Quad, k: Prefix)
    requires 1 <= k <= 8
    ensures High(ToInt(o), k) == o[0] / Pow2(8 - k)
  {
    HighOctets(o);
    HighPrefix(ToInt(o), k, 8);
  }

  /** `isPrivateIP`. */
  function IsPrivateIP(o: Quad): bool
  {
    var a, b := o[0], o[1];
    if a == 10 then true
    else if a == 172 && 16 <= b <= 31 then true
    else if a == 192 && b == 168 then true
    else false
  }

  /** The private ranges are exactly the blocks 10.0.0.0/8, 172.16.0.0/12 and 192.168.0.0/16 of RFC 1918, section 3. */
  lemma PrivateIsRfc1918(o: Quad)
    ensures IsPrivateIP(o) <==>
      || InBlock(ToInt(o), ToInt([10, 0, 0, 0]), 8)
      || InBlock(ToInt(o), ToInt([172, 16, 0, 0]), 12)
      || InBlock(ToInt(o), ToInt([192, 168, 0, 0]), 16)
  {
    InPrivateBlocks(o);
  }

  lemma InPrivateBlocks(o: Quad)
    ensures InBlock(ToInt(o), ToInt([10, 0, 0, 0]), 8) <==> o[0] == 10
    ensures InBlock(ToInt(o), ToInt([172, 16, 0, 0]), 12) <==> o[0] == 172 && 16 <= o[1] <= 31
    ensures InBlock(ToInt(o), ToInt([192, 168, 0, 0]), 16) <==> o[0] == 192 && o[1] == 168
  {
    HighOctets(o);
    PrivateNetworks();
  }

  lemma PrivateNetworks()
    ensures High(ToInt([10, 0, 0, 0]), 8) == 10
    ensures High(ToInt([172, 16, 0, 0]), 12) == 2753
    ensures High(ToInt([192, 168, 0, 0]), 16) == 49320
  {
    HighOctets([10, 0, 0, 0]);
    HighOctets([172, 16, 0, 0]);
    HighOctets([192, 168, 0, 0]);
  }

  /**
   * The usable hosts of a block with `hostBits` host bits: all its addresses
   * but the network and the broadcast, and none for /31 and /32.
   */
  function UsableHosts(hostBits: nat): (n: nat)
    ensures n < Pow2(hostBits)
    ensures hostBits >= 2 ==> n >= 2
  {
    if hostBits <= 1 then 0
    else
      assert Pow2(hostBits) == 2 * Pow2(hostBits - 1) == 4 * Pow2(hostBits - 2);
      Pow2(hostBits) - 2
  }

  /** The least `k` with `2^k >= n` (see `CeilLog2Bounds`). */
  function CeilLog2(n: nat): nat
  {
    if n <= 1 then 0 else 1 + CeilLog2((n + 1) / 2)
  }

  lemma {:induction false} CeilLog2Bounds(n: nat)
    ensures Pow2(CeilLog2(n)) >= n
    ensures CeilLog2(n) == 0 || Pow2(CeilLog2(n) - 1) < n
  {
    if n > 1 {
      var half := (n + 1) / 2;
      CeilLog2Bounds(half);
      var k := CeilLog2(half);
      assert CeilLog2(n) == k + 1;
      assert Pow2(k + 1) == 2 * Pow2(k);
    }
  }

  /** The longest prefix whose block holds `hosts + 2` addresses; 32 when no block is large enough (see `PrefixForHostsBounds`). */
  function PrefixForHosts(hosts: int): Prefix
  {
    var needed := hosts + 2;
    if needed <= 1 || needed > TWO32 then 32
    else
      CeilLog2Bound(needed);
      32 - CeilLog2(needed)
  }

  /**
   * The block of `PrefixForHosts(hosts)` holds `hosts + 2` addresses and the
   * next longer prefix's block does not; 32 when no block is large enough.
   */
  lemma PrefixForHostsBounds(hosts: int)
    ensures var p := PrefixForHosts(hosts);
      hosts + 2 <= TWO32 ==> var h: nat := 32 - p; Pow2(h) >= hosts + 2 && (p == 32 || Pow2(h - 1) < hosts + 2)
    ensures hosts + 2 > TWO32 ==> PrefixForHosts(hosts) == 32
  {
    var needed := hosts + 2;
    if 1 < needed <= TWO32 {
      CeilLog2Bound(needed);
    }
  }

  lemma CeilLog2Bound(n: nat)
    requires n <= TWO32
    ensures CeilLog2(n) <= 32
    ensures Pow2(CeilLog2(n)) >= n
    ensures CeilLog2(n) == 0 || Pow2(CeilLog2(n) - 1) < n
  {
    var k := CeilLog2(n);
    CeilLog2Bounds(n);
    Pow2Word();
    if k > 32 {
      Pow2Monotone(32, k - 1);
    }
  }

  /** `smallestPrefixForHosts`: count the prefix down from 32 until the block is large enough. */
  method SmallestPrefixForHosts(hosts: int) returns (p: Prefix)
    ensures p == PrefixForHosts(hosts)
  {
    var needed := hosts + 2;
    var q := 32;
    while q >= 0
      invariant -1 <= q <= 32
      invariant forall h: nat :: h < 32 - q ==> Pow2(h) < needed
    {
      var hostBits: nat := 32 - q;
      var available := Pow2(hostBits);
      if available >= needed {
        PrefixForHostsUnique(hosts, q);
        return q;
      }
      q := q - 1;
    }
    NoBlockLargeEnough(hosts);
    return 32;
  }

  /** When even the whole address space is too small, the search falls back to /32. */
  lemma NoBlockLargeEnough(hosts: int)
    requires forall h: nat :: h < 33 ==> Pow2(h) < hosts + 2
    ensures PrefixForHosts(hosts) == 32
  {
    assert Pow2(32) < hosts + 2;
    Pow2Word();
    PrefixForHostsBounds(hosts);
  }

  /** The first prefix, counting down from 32, whose block is large enough is the one `PrefixForHosts` gives. */
  lemma PrefixForHostsUnique(hosts: int, q: Prefix)
    requires Pow2(32 - q) >= hosts + 2
    requires forall h: nat :: h < 32 - q ==> Pow2(h) < hosts + 2
    ensures q == PrefixForHosts(hosts)
  {
    var p := PrefixForHosts(hosts);
    PrefixForHostsBounds(hosts);
    var hq: nat, hp: nat := 32 - q, 32 - p;
    Pow2Word();
    Pow2Monotone(hq, 32);
    if p < q {
      Pow2Monotone(hq, hp - 1);
    } else if p > q {
      assert false;
    }
  }

  /** The prefix for `h` hosts is the one whose block has at least `h` usable hosts while the next longer one has fewer. */
  lemma HostCountBoundary(hosts: int)
    requires 1 <= hosts <= TWO32 - 2
    ensures var p := PrefixForHosts(hosts);
      p < 31 && UsableHosts(32 - p) >= hosts && UsableHosts(31 - p) < hosts
  {
    PrefixForHostsBounds(hosts);
    assert Pow2(0) == 1 && Pow2(1) == 2;
  }

  /** Needing more addresses never gives a longer prefix. */
  lemma PrefixForHostsMonotone(h1: int, h2: int)
    requires h1 <= h2 <= TWO32 - 2
    ensures PrefixForHosts(h2) <= PrefixForHosts(h1)
  {
    var p1, p2 := PrefixForHosts(h1), PrefixForHosts(h2);
    PrefixForHostsBounds(h1);
    PrefixForHostsBounds(h2);
    if p2 > p1 {
      Pow2Monotone(32 - p2, 31 - p1);
    }
  }

  function BitChar(b: nat): char
    requires b < 2
  {
    if b == 1 then '1' else '0'
  }

  /** `s` ends with the bits of `n`, least significant last. */
  predicate SpellsBits(s: string, n: nat)
  {
    forall k :: 0 <= k < |s| ==> s[|s| - 1 - k] == BitChar(Bit(n, k))
  }

  /** `n.toString(2)` spells the bits of `n` from the most significant one down. */
  lemma {:induction false} BinaryDigits(n: nat)
    ensures n < Pow2(|ToRadix(n, 2)|)
    ensures SpellsBits(ToRadix(n, 2), n)
  {
    var s := ToRadix(n, 2);
    if n < 2 {
      assert Bit(n, 0) == n;
    } else {
      var front := ToRadix(n / 2, 2);
      BinaryDigits(n / 2);
      assert s == front + [BitChar(n % 2)];
      AppendBit(n, front, s);
    }
  }

  lemma AppendBit(n: nat, front: string, s: string)
    requires n / 2 < Pow2(|front|) && SpellsBits(front, n / 2)
    requires s == front + [BitChar(n % 2)]
    ensures n < Pow2(|s|) && SpellsBits(s, n)
  {
    HalfBound(n, Pow2(|front|));
    forall k | 0 <= k < |s|
      ensures s[|s| - 1 - k] == BitChar(Bit(n, k))
    {
      if k > 0 {
        BitOfHalf(n, k);
        assert s[|s| - 1 - k] == front[|front| - 1 - (k - 1)];
      } else {
        assert Pow2(0) == 1;
      }
    }
  }

  lemma HalfBound(n: nat, m: nat)
    requires n / 2 < m
    ensures n < 2 * m
  {
  }

  /** Bit `k` of `n` is bit `k - 1` of `n / 2`. */
  lemma BitOfHalf(n: nat, k: nat)
    requires k > 0
    ensures Bit(n / 2, k - 1) == Bit(n, k)
  {
    DivDiv(n, 2, Pow2(k - 1));
  }

  lemma {:induction false} BinaryLength(n: nat, width: nat)
    requires width >= 1 && n < Pow2(width)
    ensures |ToRadix(n, 2)| <= width
  {
    if n >= 2 {
      BinaryLength(n / 2, width - 1);
    }
  }

  /** `bitsOfOctet`: eight binary digits, most significant first. */
  function BitsOfOctet(n: Octet): (s: string)
    ensures |s| == 8
    ensures forall i :: 0 <= i < 8 ==> s[i] == BitChar(Bit(n, 7 - i))
  {
    var digits := ToRadix(n, 2);
    Pow2Values();
    BinaryDigits(n);
    BinaryLength(n, 8);
    PaddedBits(n, digits);
    PadStart(digits, 8, '0')
  }

  lemma PaddedBits(n: nat, digits: string)
    requires |digits| <= 8 && n < Pow2(|digits|) && SpellsBits(digits, n)
    ensures var s := PadStart(digits, 8, '0');
      forall i :: 0 <= i < 8 ==> s[i] == BitChar(Bit(n, 7 - i))
  {
    var s := PadStart(digits, 8, '0');
    var pad := 8 - |digits|;
    assert s[pad..] == digits;
    forall i | 0 <= i < 8
      ensures s[i] == BitChar(Bit(n, 7 - i))
    {
      if i < pad {
        BitAbove(n, 7 - i, |digits|);
      } else {
        var k := 7 - i;
        assert s[i] == digits[|digits| - 1 - k];
        assert digits[|digits| - 1 - k] == BitChar(Bit(n, k));
      }
    }
  }

  /** Bits at or above the width of a number are zero. */
  lemma BitAbove(n: nat, k: nat, w: nat)
    requires w <= k && n < Pow2(w)
    ensures Bit(n, k) == 0
  {
    Pow2Monotone(w, k);
    DivModUnique(n, Pow2(k), 0, n);
  }
}
