/**
 * The bit breakdown of an address (`calcBinary` in app.js): the mask and
 * wildcard of the prefix, the network address, and each octet's eight
 * binary digits wrapped in a `netbit` or `hostbit` span according to the
 * mask bit in the same position.
 */
module BitVisualizer {
  import opened Wrappers
  import opened Bits
  import opened Text
  import opened AddressCodec
  import opened MaskArithmetic

  /** One binary digit and whether the mask marks it as a network bit. */
  datatype BitSpan = BitSpan(net: bool, digit: char)

  /** The markup of one decorated digit. */
  function SpanHtml(b: BitSpan): string
  {
    (if b.net then "<span class=\"netbit\">" else "<span class=\"hostbit\">") + [b.digit] + "</span>"
  }

  /** The markup of a run of decorated digits, in order. */
  function Render(spans: seq<BitSpan>): string
  {
    if |spans| == 0 then "" else Render(spans[..|spans| - 1]) + SpanHtml(spans[|spans| - 1])
  }

  /** The digits of one octet paired with the mask digits in the same positions. */
  function Tagged(octBits: string, maskOctBits: string): (spans: seq<BitSpan>)
    requires |octBits| == 8 && |maskOctBits| == 8
    ensures |spans| == 8
  {
    seq(8, i requires 0 <= i < 8 => BitSpan(maskOctBits[i] == '1', octBits[i]))
  }

  /** `decorate`: append the span of each of the eight digits in turn. */
  method Decorate(octBits: string, maskOctBits: string) returns (out: string)
    requires |octBits| == 8 && |maskOctBits| == 8
    ensures out == Render(Tagged(octBits, maskOctBits))
  {
    ghost var spans := Tagged(octBits, maskOctBits);
    out := "";
    for i := 0 to 8
      invariant out == Render(spans[..i])
    {
      var m := maskOctBits[i] == '1';
      var span := if m then "<span class=\"netbit\">" + [octBits[i]] + "</span>"
                  else "<span class=\"hostbit\">" + [octBits[i]] + "</span>";
      assert spans[..i + 1][..i] == spans[..i];
      out := out + span;
    }
    assert spans[..8] == spans;
  }

  /**
   * What octet `o` of the breakdown should show: digit `j` is bit
   * `31 - (8 * o + j)` of the address, and it is a network bit exactly when
   * its position `8 * o + j` lies within the prefix.
   */
  function OctetSpans(x: U32, prefix: Prefix, o: nat): (spans: seq<BitSpan>)
    requires o < 4
    ensures |spans| == 8
    ensures forall j :: 0 <= j < 8 ==> spans[j] == SpanAt(x, prefix, 8 * o + j)
  {
    seq(8, j requires 0 <= j < 8 => SpanAt(x, prefix, 8 * o + j))
  }

  /** The span of address bit position `pos`, counted from the most significant bit. */
  function SpanAt(x: U32, prefix: Prefix, pos: nat): BitSpan
    requires pos < 32
  {
    BitSpan(pos < prefix, BitChar(Bit(x, 31 - pos)))
  }

  /** Decorating octet `o` of the address by octet `o` of the mask gives the spans above. */
  lemma DecoratedOctet(x: U32, prefix: Prefix, o: nat)
    requires o < 4
    ensures Tagged(BitsOfOctet(FromInt(x)[o]), BitsOfOctet(FromInt(MaskInt(prefix))[o])) == OctetSpans(x, prefix, o)
  {
    var m := MaskInt(prefix);
    var bits, maskBits := BitsOfOctet(FromInt(x)[o]), BitsOfOctet(FromInt(m)[o]);
    forall j | 0 <= j < 8
      ensures bits[j] == BitChar(Bit(x, 31 - (8 * o + j)))
      ensures maskBits[j] == BitChar(Bit(m, 31 - (8 * o + j)))
    {
      OctetDigit(x, o, j);
      OctetDigit(m, o, j);
    }
    forall i | 0 <= i < 32
      ensures Bit(m, i) == if i >= 32 - prefix then 1 else 0
    {
      MaskIntBits(prefix, i);
    }
    DecoratedByMask(x, m, prefix, o, bits, maskBits);
  }

  lemma DecoratedByMask(x: U32, m: U32, prefix: Prefix, o: nat, bits: string, maskBits: string)
    requires o < 4 && |bits| == 8 && |maskBits| == 8
    requires forall j :: 0 <= j < 8 ==> bits[j] == BitChar(Bit(x, 31 - (8 * o + j)))
    requires forall j :: 0 <= j < 8 ==> maskBits[j] == BitChar(Bit(m, 31 - (8 * o + j)))
    requires forall i :: 0 <= i < 32 ==> Bit(m, i) == if i >= 32 - prefix then 1 else 0
    ensures Tagged(bits, maskBits) == OctetSpans(x, prefix, o)
  {
    forall j | 0 <= j < 8
      ensures Tagged(bits, maskBits)[j] == OctetSpans(x, prefix, o)[j]
    {
      var i := 31 - (8 * o + j);
      assert Bit(m, i) == 1 <==> 8 * o + j < prefix;
    }
  }

  /** Digit `j` of the binary text of octet `o` of a word is bit `31 - (8 * o + j)` of the word. */
  lemma OctetDigit(w: U32, o: nat, j: nat)
    requires o < 4 && j < 8
    ensures BitsOfOctet(FromInt(w)[o])[j] == BitChar(Bit(w, 31 - (8 * o + j)))
  {
    OctetBit(w, o, 7 - j);
  }

  /** Bit `k` of octet `o` of a word is bit `8 * (3 - o) + k` of the word. */
  lemma OctetBit(m: U32, o: nat, k: nat)
    requires o < 4 && k < 8
    ensures Bit(FromInt(m)[o], k) == Bit(m, 24 - 8 * o + k)
  {
    var e: nat := 24 - 8 * o;
    var y := Quotient(m, Pow2(e));
    assert FromInt(m)[o] == y % Pow2(8) by {
      OctetOfWord(m, o);
    }
    LowBits(y, 8, k);
    ShiftedBit(m, e, k);
  }

  /** Bit `k` of `x / 2^e` is bit `e + k` of `x`. */
  lemma ShiftedBit(x: nat, e: nat, k: nat)
    ensures Bit(Quotient(x, Pow2(e)), k) == Bit(x, e + k)
  {
    DivDiv(x, Pow2(e), Pow2(k));
    Pow2Add(e, k);
  }

  /** Reducing modulo `2^n` keeps the bits below `n`. */
  lemma LowBits(y: nat, n: nat, k: nat)
    requires k < n
    ensures Bit(y % Pow2(n), k) == Bit(y, k)
  {
    var a, b, c, d := Pow2(k), Pow2(n - k), Pow2(n - k - 1), Pow2(n);
    Pow2Add(k, n - k);
    assert b == 2 * c;
    var q, r := y / d, y % d;
    DivModParts(y, d);
    DivModParts(r, a);
    Regroup(y, q, r, a, b, r / a, r % a);
    DivModUnique(y, a, q * b + r / a, r % a);
    EvenShift(q, c, r / a);
  }

  lemma DivModParts(x: int, d: int)
    requires d > 0
    ensures x == x / d * d + x % d && 0 <= x % d < d
  {
  }

  /** `y = q * (a * b) + r` with `r = r1 * a + r0` is `y = (q * b + r1) * a + r0`. */
  lemma Regroup(y: int, q: int, r: int, a: int, b: int, r1: int, r0: int)
    requires y == q * (a * b) + r && r == r1 * a + r0
    ensures y == (q * b + r1) * a + r0
  {
  }

  /** Adding an even number keeps the parity. */
  lemma EvenShift(q: int, c: int, r1: int)
    ensures (q * (2 * c) + r1) % 2 == r1 % 2
  {
    DivModUnique(q * (2 * c) + r1, 2, q * c + r1 / 2, r1 % 2);
  }

  /** Masking keeps the top `p` bits of the address and clears the others. */
  lemma NetworkBits(x: U32, p: Prefix, i: nat)
    requires i < 32
    ensures Bit(Network(x, p), i) == if i >= 32 - p then Bit(x, i) else 0
  {
    var h: nat := 32 - p;
    var n := Network(x, p);
    var hi := High(x, p);
    assert n == hi * Pow2(h);
    if i < h {
      MultipleBit(hi, i, h);
    } else {
      DivModUnique(n, Pow2(h), hi, 0);
      ShiftedBit(n, h, i - h);
      ShiftedBit(x, h, i - h);
    }
  }

  /** The bits of `q * 2^h` below `h` are zero. */
  lemma MultipleBit(q: nat, i: nat, h: nat)
    requires i < h
    ensures Bit(q * Pow2(h), i) == 0
  {
    var a, b, c := Pow2(i), Pow2(h - i), Pow2(h - i - 1);
    Pow2Add(i, h - i);
    assert b == 2 * c;
    Regroup(q * Pow2(h), q, 0, a, b, 0, 0);
    DivModUnique(q * Pow2(h), a, q * b, 0);
    EvenShift(q, c, 0);
  }

  /** The markup `decorate` gives octet `o` of an address is the markup of its expected spans. */
  lemma OctetLine(ip: Quad, prefix: Prefix, o: nat, html: string)
    requires o < 4
    requires html == Render(Tagged(BitsOfOctet(ip[o]), BitsOfOctet(FromInt(MaskInt(prefix))[o])))
    ensures html == Render(OctetSpans(ToInt(ip), prefix, o))
  {
    DecoratedOctet(ToInt(ip), prefix, o);
  }

  /** The label in front of octet `o`'s digits. */
  function OctetLabel(o: nat): string
    requires o < 4
  {
    "Octet " + [DigitChar(o + 1)] + ": "
  }

  /** The four octet lines, each behind its label. */
  function Labelled(l0: string, l1: string, l2: string, l3: string): seq<string>
  {
    [OctetLabel(0) + l0, OctetLabel(1) + l1, OctetLabel(2) + l2, OctetLabel(3) + l3]
  }

  lemma OctetLines(x: U32, prefix: Prefix, l0: string, l1: string, l2: string, l3: string)
    requires l0 == Render(OctetSpans(x, prefix, 0)) && l1 == Render(OctetSpans(x, prefix, 1))
    requires l2 == Render(OctetSpans(x, prefix, 2)) && l3 == Render(OctetSpans(x, prefix, 3))
    ensures var lines := Labelled(l0, l1, l2, l3);
      |lines| == 4 && forall o :: 0 <= o < 4 ==> lines[o] == OctetLabel(o) + Render(OctetSpans(x, prefix, o))
  {
    var lines := Labelled(l0, l1, l2, l3);
    forall o | 0 <= o < 4
      ensures lines[o] == OctetLabel(o) + Render(OctetSpans(x, prefix, o))
    {
      if o == 0 {} else if o == 1 {} else if o == 2 {} else {}
    }
  }

  /** The four outputs of the breakdown. */
  datatype BinaryView = BinaryView(mask: string, wildcard: string, network: string, octets: seq<string>)

  /** `calcBinary`, for a prefix chosen from 0 to 32. */
  method CalcBinary(text: string, prefix: Prefix) returns (r: Result<BinaryView, AddressError>)
    ensures r.Failure? <==> IpToOctets(text).Failure?
    ensures r.Failure? ==> r.error == IpToOctets(text).error
    ensures r.Success? ==> var x := ToInt(IpToOctets(text).value);
      && r.value.mask == OctetsToIP(FromInt(MaskInt(prefix)))
      && r.value.wildcard == OctetsToIP(FromInt(0xFFFF_FFFF - MaskInt(prefix)))
      && r.value.network == OctetsToIP(FromInt(Network(x, prefix))) + "/" + ToRadix(prefix, 10)
      && |r.value.octets| == 4
      && forall o :: 0 <= o < 4 ==> r.value.octets[o] == OctetLabel(o) + Render(OctetSpans(x, prefix, o))
  {
    var parsed := IpToOctets(text);
    if parsed.Failure? {
      return Failure(parsed.error);
    }
    var ip := parsed.value;
    var mask := MaskFromPrefix(prefix);
    var wc := WildcardFromMask(mask);
    WildcardOfPrefix(prefix);
    var ipInt := ToInt(ip);
    var maskI := MaskInt(prefix);
    // (ipInt & maskI) >>> 0
    var netInt := Network(ipInt, prefix);
    var net := FromInt(netInt);
    var network := OctetsToIP(net) + "/" + ToRadix(prefix, 10);
    var maskOctets := FromInt(maskI);
    var bits := [BitsOfOctet(ip[0]), BitsOfOctet(ip[1]), BitsOfOctet(ip[2]), BitsOfOctet(ip[3])];
    var maskBits := [BitsOfOctet(maskOctets[0]), BitsOfOctet(maskOctets[1]), BitsOfOctet(maskOctets[2]), BitsOfOctet(maskOctets[3])];
    var oct1 := Decorate(bits[0], maskBits[0]);
    var oct2 := Decorate(bits[1], maskBits[1]);
    var oct3 := Decorate(bits[2], maskBits[2]);
    var oct4 := Decorate(bits[3], maskBits[3]);
    OctetLine(ip, prefix, 0, oct1);
    OctetLine(ip, prefix, 1, oct2);
    OctetLine(ip, prefix, 2, oct3);
    OctetLine(ip, prefix, 3, oct4);
    OctetLines(ipInt, prefix, oct1, oct2, oct3, oct4);
    var octets := Labelled(oct1, oct2, oct3, oct4);
    r := Success(BinaryView(mask, wc.value, network, octets));
  }
}
