/**
 * Dotted-quad IPv4 text, its four octets and the big-endian unsigned
 * 32-bit integer they stand for (`ipToOctets`, `octetsToIP`, `toInt`,
 * `fromInt` and `parseCIDR` in app.js).
 */
module AddressCodec {
  import opened Wrappers
  import opened Bits
  import opened Text

  type Octet = x: int | 0 <= x < 256

  /** The four octets of an address, most significant first. */
  type Quad = s: seq<Octet> | |s| == 4 witness [0, 0, 0, 0]

  /** The three errors `ipToOctets` throws. */
  datatype AddressError = InvalidFormat | NotNumeric | OctetOutOfRange

  function ErrorMessage(e: AddressError): string
  {
    match e
    case InvalidFormat => "Invalid IPv4 format"
    case NotNumeric => "IPv4 must be numeric octets"
    case OctetOutOfRange => "Octets must be 0\U{2013}255"
  }

  /** The three messages differ, so the message shown names the error. */
  lemma ErrorMessagesDistinct(a: AddressError, b: AddressError)
    requires ErrorMessage(a) == ErrorMessage(b)
    ensures a == b
  {
  }

  /** The group matches `/^\d+$/`. */
  predicate IsDecimalGroup(p: string)
  {
    |p| > 0 && IsDigitString(p, 10)
  }

  /** The group is accepted as an octet: decimal digits whose value is at most 255. */
  predicate IsOctetText(p: string)
  {
    IsDecimalGroup(p) && RadixValue(p, 10) <= 255
  }

  /** The error thrown for a group that is not an octet. */
  function OctetError(p: string): AddressError
  {
    if IsDecimalGroup(p) then OctetOutOfRange else NotNumeric
  }

  function ParseOctet(p: string): (r: Result<Octet, AddressError>)
    ensures r.Success? <==> IsOctetText(p)
    ensures r.Success? ==> r.value == RadixValue(p, 10)
    ensures r.Failure? ==> r.error == OctetError(p)
  {
    if !IsDecimalGroup(p) then Failure(NotNumeric)
    else
      var v := RadixValue(p, 10);
      if v > 255 then Failure(OctetOutOfRange) else Success(v)
  }

  /** `parts.map(...)`: the first group that is not an octet decides the error. */
  function ParseOctets(parts: seq<string>): (r: Result<seq<Octet>, AddressError>)
    ensures r.Success? <==> forall i :: 0 <= i < |parts| ==> IsOctetText(parts[i])
    ensures r.Success? ==> |r.value| == |parts|
    ensures r.Success? ==> forall i :: 0 <= i < |parts| ==> r.value[i] == RadixValue(parts[i], 10)
    ensures r.Failure? ==> exists k :: 0 <= k < |parts| && !IsOctetText(parts[k])
                                   && (forall j :: 0 <= j < k ==> IsOctetText(parts[j]))
                                   && r.error == OctetError(parts[k])
  {
    if |parts| == 0 then Success([])
    else
      var head :- ParseOctet(parts[0]);
      var tail := ParseOctets(parts[1..]);
      if tail.Failure? then
        var k :| 1 <= k + 1 < |parts| && !IsOctetText(parts[1..][k])
                 && (forall j :: 0 <= j < k ==> IsOctetText(parts[1..][j]))
                 && tail.error == OctetError(parts[1..][k]);
        assert !IsOctetText(parts[k + 1]) && forall j :: 0 <= j < k + 1 ==> IsOctetText(parts[j]) by {
          forall j | 0 <= j < k + 1
            ensures IsOctetText(parts[j])
          {
            if j > 0 {
              assert parts[j] == parts[1..][j - 1];
            }
          }
        }
        Failure(tail.error)
      else
        Success([head] + tail.value)
  }

  /** The dot-separated groups `ipToOctets` examines. */
  function Groups(text: string): seq<string>
  {
    Split(Trim(text), ".")
  }

  /** `ipToOctets`: parse a dotted quad. */
  function IpToOctets(text: string): (r: Result<Quad, AddressError>)
    ensures r.Success? <==> |Groups(text)| == 4 && forall i :: 0 <= i < 4 ==> IsOctetText(Groups(text)[i])
    ensures r.Success? ==> forall i :: 0 <= i < 4 ==> r.value[i] == RadixValue(Groups(text)[i], 10)
    ensures r == Failure(InvalidFormat) <==> |Groups(text)| != 4
    ensures r.Failure? && |Groups(text)| == 4 ==>
      exists k :: 0 <= k < 4 && !IsOctetText(Groups(text)[k])
               && (forall j :: 0 <= j < k ==> IsOctetText(Groups(text)[j]))
               && r.error == OctetError(Groups(text)[k])
  {
    var parts := Groups(text);
    if |parts| != 4 then Failure(InvalidFormat)
    else
      var octets :- ParseOctets(parts);
      Success(octets)
  }

  /** `octetsToIP`: the dotted-quad text of four octets; it parses back to them. */
  function OctetsToIP(o: Quad): (text: string)
    ensures IpToOctets(text) == Success(o)
    ensures forall c :: c in text ==> c == '.' || '0' <= c <= '9'
  {
    var groups := [ToRadix(o[0], 10), ToRadix(o[1], 10), ToRadix(o[2], 10), ToRadix(o[3], 10)];
    var text := Join(groups, ".");
    OctetsToIPParses(o, groups, text);
    text
  }

  lemma OctetsToIPParses(o: Quad, groups: seq<string>, text: string)
    requires groups == [ToRadix(o[0], 10), ToRadix(o[1], 10), ToRadix(o[2], 10), ToRadix(o[3], 10)]
    requires text == Join(groups, ".")
    ensures IpToOctets(text) == Success(o)
    ensures forall c :: c in text ==> c == '.' || '0' <= c <= '9'
  {
    OctetGroups(o, groups);
    JoinedGroups(groups, text);
    var r := IpToOctets(text);
    assert r.Success?;
    assert r.value == o;
  }

  /** The decimal texts of four octets are octet texts that read back as the octets. */
  lemma OctetGroups(o: Quad, groups: seq<string>)
    requires groups == [ToRadix(o[0], 10), ToRadix(o[1], 10), ToRadix(o[2], 10), ToRadix(o[3], 10)]
    ensures forall k :: 0 <= k < 4 ==> IsOctetText(groups[k]) && RadixValue(groups[k], 10) == o[k]
    ensures forall k, c :: 0 <= k < 4 && c in groups[k] ==> '0' <= c <= '9'
  {
    forall k | 0 <= k < 4
      ensures IsOctetText(groups[k]) && RadixValue(groups[k], 10) == o[k]
      ensures forall c :: c in groups[k] ==> '0' <= c <= '9'
    {
      OctetText(o[k]);
    }
  }

  /** Four octet texts joined with dots are the groups of the joined text. */
  lemma JoinedGroups(groups: seq<string>, text: string)
    requires |groups| == 4 && text == Join(groups, ".")
    requires forall k :: 0 <= k < 4 ==> IsOctetText(groups[k])
    requires forall k, c :: 0 <= k < 4 && c in groups[k] ==> '0' <= c <= '9'
    ensures Groups(text) == groups
    ensures forall c :: c in text ==> c == '.' || '0' <= c <= '9'
  {
    JoinedChars(groups, text);
    JoinedTrim(groups, text);
    SplitJoin(groups, '.');
  }

  lemma JoinedChars(groups: seq<string>, text: string)
    requires text == Join(groups, ".")
    requires forall k, c :: 0 <= k < |groups| && c in groups[k] ==> '0' <= c <= '9'
    ensures forall c :: c in text ==> c == '.' || '0' <= c <= '9'
  {
    JoinChars(groups, ".");
    forall c | c in text
      ensures c == '.' || '0' <= c <= '9'
    {
      if c != '.' {
        var k :| 0 <= k < |groups| && c in groups[k];
      }
    }
  }

  /** A join of digit groups starts and ends with a digit, so trimming leaves it alone. */
  lemma JoinedTrim(groups: seq<string>, text: string)
    requires |groups| == 4 && text == Join(groups, ".")
    requires forall k :: 0 <= k < 4 ==> |groups[k]| > 0
    requires forall k, c :: 0 <= k < 4 && c in groups[k] ==> '0' <= c <= '9'
    ensures Trim(text) == text
  {
    JoinEnds(groups, ".");
    var first, last := groups[0][0], groups[3][|groups[3]| - 1];
    assert first in groups[0] && last in groups[3];
    DigitNotWhitespace(first);
    DigitNotWhitespace(last);
    TrimUnchanged(text);
  }

  lemma DigitNotWhitespace(c: char)
    requires '0' <= c <= '9'
    ensures !IsWhitespace(c)
  {
  }

  /** The decimal text of an octet is accepted by the octet check. */
  lemma OctetText(n: Octet)
    ensures IsOctetText(ToRadix(n, 10))
    ensures forall c :: c in ToRadix(n, 10) ==> '0' <= c <= '9'
  {
  }

  lemma DigitsExcludeDot(s: string)
    requires IsDigitString(s, 10)
    ensures '.' !in s
    ensures forall c :: c in s ==> '0' <= c <= '9'
  {
  }

  /** `toInt`: the big-endian unsigned 32-bit value of four octets. */
  function ToInt(o: Quad): (n: U32)
    ensures FromInt(n) == o
  {
    var n := o[0] as int * 16777216 + o[1] as int * 65536 + o[2] as int * 256 + o[3];
    FromIntToIntInverse(o, n);
    n
  }

  /** `fromInt`: the four octets of an unsigned 32-bit value; weighted big-endian, they add up to it. */
  function FromInt(n: U32): (o: Quad)
    ensures n == o[0] as int * 16777216 + o[1] as int * 65536 + o[2] as int * 256 + o[3]
  {
    var o := [(n / 16777216) % 256, (n / 65536) % 256, (n / 256) % 256, n % 256];
    DivDiv(n, 256, 256);
    DivDiv(n, 65536, 256);
    var q1, q2, q3 := n / 256, n / 65536, n / 16777216;
    assert n == q1 * 256 + o[3];
    assert q1 == q2 * 256 + o[2];
    assert q2 == q3 * 256 + o[1];
    assert q3 == o[0];
    o
  }

  lemma FromIntToIntInverse(o: Quad, n: int)
    requires n == o[0] as int * 16777216 + o[1] as int * 65536 + o[2] as int * 256 + o[3]
    ensures 0 <= n < TWO32 && FromInt(n) == o
  {
    DivModUnique(n, 16777216, o[0], o[1] as int * 65536 + o[2] as int * 256 + o[3]);
    DivModUnique(n, 65536, o[0] as int * 256 + o[1], o[2] as int * 256 + o[3]);
    DivModUnique(o[0] as int * 256 + o[1], 256, o[0], o[1]);
    DivModUnique(n, 256, o[0] as int * 65536 + o[1] as int * 256 + o[2], o[3]);
    DivModUnique(o[0] as int * 65536 + o[1] as int * 256 + o[2], 256, o[0] as int * 256 + o[1], o[2]);
  }

  /** Every word is the integer of its octets. */
  lemma ToIntFromInt(n: U32)
    ensures ToInt(FromInt(n)) == n
  {
  }

  /** `toInt` is injective: distinct octets give distinct integers. */
  lemma ToIntInjective(a: Quad, b: Quad)
    requires ToInt(a) == ToInt(b)
    ensures a == b
  {
  }

  /** The leading decimal digits of `s`, as `parseInt` reads them. */
  function LeadingDigits(s: string): (d: string)
    ensures |d| <= |s| && d == s[..|d|] && IsDigitString(d, 10)
    ensures |d| == |s| || !('0' <= s[|d|] <= '9')
  {
    if |s| > 0 && '0' <= s[0] <= '9' then [s[0]] + LeadingDigits(s[1..]) else ""
  }

  /** `parseInt(s, 10)`; `None` stands for NaN. */
  function ParseInt(s: string): (r: Option<int>)
    ensures r.Some? <==> |LeadingDigits(Unsigned(TrimStart(s)))| > 0
  {
    var t := TrimStart(s);
    var body := Unsigned(t);
    var digits := LeadingDigits(body);
    if |digits| == 0 then None
    else if |t| > 0 && t[0] == '-' then Some(-(RadixValue(digits, 10) as int))
    else Some(RadixValue(digits, 10))
  }

  /** The text after an optional leading sign. */
  function Unsigned(t: string): string
  {
    if |t| > 0 && (t[0] == '+' || t[0] == '-') then t[1..] else t
  }

  /** An entry of the aggregation list: its address and its prefix (`None` for NaN). */
  datatype Cidr = Cidr(ip: Quad, prefix: Option<int>)

  /** `parseCIDR`: the text before the first `/` is the address, the one after it the prefix. */
  function ParseCidr(text: string): (r: Result<Cidr, AddressError>)
    ensures r.Success? <==> IpToOctets(Split(text, "/")[0]).Success?
    ensures r.Success? ==> r.value.ip == IpToOctets(Split(text, "/")[0]).value
    ensures r.Failure? ==> r.error == IpToOctets(Split(text, "/")[0]).error
    ensures r.Success? ==> r.value.prefix == (if |Split(text, "/")| > 1 then ParseInt(Split(text, "/")[1]) else None)
  {
    var parts := Split(text, "/");
    var prefix := if |parts| > 1 then ParseInt(parts[1]) else None;
    var ip :- IpToOctets(parts[0]);
    Success(Cidr(ip, prefix))
  }

  /** Printing an address and a prefix as `a.b.c.d/p` and parsing it gives them back. */
  lemma ParseCidrRoundTrip(o: Quad, p: nat)
    ensures ParseCidr(OctetsToIP(o) + "/" + ToRadix(p, 10)) == Success(Cidr(o, Some(p)))
  {
    var ip, pre := OctetsToIP(o), ToRadix(p, 10);
    var text := ip + "/" + pre;
    assert '/' !in ip;
    assert '/' !in pre by {
      DigitsExcludeDot(pre);
    }
    assert text == Join([ip, pre], "/");
    SplitJoin([ip, pre], '/');
    ParseIntOfDigits(pre);
  }

  /** `parseInt` reads a string of decimal digits as its value. */
  lemma ParseIntOfDigits(s: string)
    requires |s| > 0 && IsDigitString(s, 10)
    ensures ParseInt(s) == Some(RadixValue(s, 10))
  {
    assert !IsWhitespace(s[0]);
    assert TrimStart(s) == s;
    assert Unsigned(s) == s;
    LeadingDigitsOfDigits(s);
  }

  lemma {:induction false} LeadingDigitsOfDigits(s: string)
    requires IsDigitString(s, 10)
    ensures LeadingDigits(s) == s
  {
    if |s| > 0 {
      LeadingDigitsOfDigits(s[1..]);
    }
  }
}
