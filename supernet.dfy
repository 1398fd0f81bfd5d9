/**
 * Route summarisation (`calcSupernet` in app.js): the entries of a
 * newline-separated list are parsed as `a.b.c.d/p`, the lowest and the
 * highest address are taken, and the summary route is the lowest address
 * masked by the number of leading bits the two share.
 */
module RouteAggregator {
  import opened Wrappers
  import opened Bits
  import opened Text
  import opened Sorting
  import opened AddressCodec
  import opened MaskArithmetic

  /** The remark appended below the summary route. */
  const NOTE: string := "\n(Note: ensure inputs are contiguous for accuracy.)"

  /** The empty list is refused with an alert; an entry whose address does not parse throws. */
  datatype SupernetError = NoNetworks | BadEntry(cause: AddressError)

  function SupernetMessage(e: SupernetError): string
  {
    match e
    case NoNetworks => "Add networks first."
    case BadEntry(c) => ErrorMessage(c)
  }

  /** The messages differ, so the message shown names the error. */
  lemma SupernetMessagesDistinct(a: SupernetError, b: SupernetError)
    requires SupernetMessage(a) == SupernetMessage(b)
    ensures a == b
  {
  }

  /** The summary route and the text shown for it. */
  datatype Summary = Summary(network: U32, prefix: Prefix, text: string)

  /** `filter(Boolean)`: the lines that are not empty, in order, each as often as it occurs. */
  function NonEmpty(lines: seq<string>): (r: seq<string>)
    ensures forall i :: 0 <= i < |r| ==> |r[i]| > 0
    ensures forall s {:trigger s in r} :: s in r <==> s in lines && |s| > 0
  {
    if |lines| == 0 then []
    else
      var rest := NonEmpty(lines[1..]);
      assert lines == [lines[0]] + lines[1..];
      assert forall s :: s in lines <==> s == lines[0] || s in lines[1..];
      if |lines[0]| == 0 then rest else [lines[0]] + rest
  }

  /**
   * The filter keeps the order of the lines: filtering a concatenation
   * filters each part in turn, and a single line is kept iff it is not empty.
   */
  lemma {:induction false} NonEmptyConcat(a: seq<string>, b: seq<string>)
    ensures NonEmpty(a + b) == NonEmpty(a) + NonEmpty(b)
    ensures |a| == 1 ==> NonEmpty(a) == if |a[0]| > 0 then a else []
  {
    if |a| == 0 {
      assert a + b == b;
    } else {
      var ab := a + b;
      assert ab[0] == a[0] && ab[1..] == a[1..] + b;
      NonEmptyConcat(a[1..], b);
      var head := NonEmptyHead(ab);
      assert head == NonEmptyHead(a);
      calc {
        NonEmpty(ab);
        head + NonEmpty(a[1..] + b);
        head + (NonEmpty(a[1..]) + NonEmpty(b));
        (head + NonEmpty(a[1..])) + NonEmpty(b);
        NonEmpty(a) + NonEmpty(b);
      }
    }
  }

  /** The filter keeps every non-empty line as often as it occurs, and no empty one. */
  lemma {:induction false} NonEmptyCounts(lines: seq<string>)
    ensures multiset(NonEmpty(lines)) == multiset(lines)["" := 0]
  {
    if |lines| > 0 {
      var rest := lines[1..];
      NonEmptyCounts(rest);
      assert lines == [lines[0]] + rest;
      var all := multiset(lines);
      assert all == multiset{lines[0]} + multiset(rest);
      if lines[0] == "" {
        assert NonEmpty(lines) == NonEmpty(rest);
        assert all["" := 0] == multiset(rest)["" := 0];
      } else {
        assert NonEmpty(lines) == [lines[0]] + NonEmpty(rest);
        assert multiset(NonEmpty(lines)) == multiset{lines[0]} + multiset(NonEmpty(rest));
      }
    }
  }

  /** What the filter keeps of the first line. */
  function NonEmptyHead(lines: seq<string>): (head: seq<string>)
    requires |lines| > 0
    ensures NonEmpty(lines) == head + NonEmpty(lines[1..])
  {
    if |lines[0]| == 0 then [] else [lines[0]]
  }

  /** `lines.map(l => l.trim())`. */
  function TrimAll(lines: seq<string>): (r: seq<string>)
    ensures |r| == |lines|
    ensures forall i :: 0 <= i < |lines| ==> r[i] == Trim(lines[i])
  {
    seq(|lines|, i requires 0 <= i < |lines| => Trim(lines[i]))
  }

  /** The entries of the aggregation list: its trimmed lines that are not empty. */
  function EntryLines(text: string): seq<string>
  {
    NonEmpty(TrimAll(Split(text, "\n")))
  }

  /** There is nothing to summarise exactly when every line is blank. */
  lemma NoEntriesIffBlank(text: string)
    ensures EntryLines(text) == [] <==> forall j :: 0 <= j < |Split(text, "\n")| ==> Trim(Split(text, "\n")[j]) == []
  {
    var trimmed := TrimAll(Split(text, "\n"));
    var e := EntryLines(text);
    if e == [] {
      forall j | 0 <= j < |trimmed|
        ensures trimmed[j] == []
      {
        assert trimmed[j] in trimmed;
        assert trimmed[j] in e <==> trimmed[j] in trimmed && |trimmed[j]| > 0;
      }
    } else {
      assert e[0] in e;
    }
  }

  /** `results` in order: every value, or the error of the first failure. */
  function FirstError<T>(results: seq<Result<T, AddressError>>): (r: Result<seq<T>, AddressError>)
    ensures r.Success? <==> forall i :: 0 <= i < |results| ==> results[i].Success?
    ensures r.Success? ==> |r.value| == |results|
    ensures r.Success? ==> forall i :: 0 <= i < |results| ==> r.value[i] == results[i].value
    ensures r.Failure? ==> exists k :: 0 <= k < |results| && results[k].Failure?
                                   && (forall j :: 0 <= j < k ==> results[j].Success?)
                                   && r.error == results[k].error
  {
    if |results| == 0 then Success([])
    else
      var head :- results[0];
      var tail := FirstError(results[1..]);
      if tail.Failure? then
        var k :| 0 <= k < |results[1..]| && results[1..][k].Failure?
                 && (forall j :: 0 <= j < k ==> results[1..][j].Success?)
                 && tail.error == results[1..][k].error;
        assert results[k + 1].Failure? && forall j :: 0 <= j < k + 1 ==> results[j].Success? by {
          forall j | 0 <= j < k + 1
            ensures results[j].Success?
          {
            if j > 0 {
              assert results[j] == results[1..][j - 1];
            }
          }
        }
        Failure(tail.error)
      else
        assert forall i :: 1 <= i < |results| ==> results[i] == results[1..][i - 1];
        Success([head] + tail.value)
  }

  /** `lines.map(parseCIDR)`: the first entry whose address does not parse throws. */
  function ParseEntries(lines: seq<string>): Result<seq<Cidr>, AddressError>
  {
    FirstError(seq(|lines|, i requires 0 <= i < |lines| => ParseCidr(lines[i])))
  }

  /** `toInt(n.ip)` of every entry, the key the list is sorted by. */
  function AddressKeys(nets: seq<Cidr>): (keys: seq<U32>)
    ensures |keys| == |nets|
    ensures forall i :: 0 <= i < |nets| ==> keys[i] == ToInt(nets[i].ip)
  {
    seq(|nets|, i requires 0 <= i < |nets| => ToInt(nets[i].ip))
  }

  /** The sorted keys start with the least key and end with the greatest one. */
  lemma SortedEnds(keys: seq<U32>)
    requires |keys| > 0
    ensures var sorted := Sort(keys, Ascending);
      && |sorted| == |keys| && sorted[0] in keys && sorted[|sorted| - 1] in keys
      && forall k :: k in keys ==> sorted[0] <= k <= sorted[|sorted| - 1]
  {
    var sorted := Sort(keys, Ascending);
    assert |multiset(sorted)| == |multiset(keys)|;
    assert sorted[0] in multiset(sorted) && sorted[|sorted| - 1] in multiset(sorted);
    forall k | k in keys
      ensures sorted[0] <= k <= sorted[|sorted| - 1]
    {
      assert k in multiset(keys);
      var i :| 0 <= i < |sorted| && sorted[i] == k;
      assert i == 0 || Precedes(Ascending, sorted[0], sorted[i]);
      assert i == |sorted| - 1 || Precedes(Ascending, sorted[i], sorted[|sorted| - 1]);
    }
  }

  /** `toInt(nets[0].ip)` after sorting: the least address of the list. */
  function Lowest(keys: seq<U32>): (lo: U32)
    requires |keys| > 0
    ensures lo in keys && forall k :: k in keys ==> lo <= k
  {
    var sorted := Sort(keys, Ascending);
    SortedEnds(keys);
    sorted[0]
  }

  /** `toInt(nets[nets.length - 1].ip)` after sorting: the greatest address of the list. */
  function Highest(keys: seq<U32>): (hi: U32)
    requires |keys| > 0
    ensures hi in keys && forall k :: k in keys ==> k <= hi
  {
    var sorted := Sort(keys, Ascending);
    SortedEnds(keys);
    sorted[|sorted| - 1]
  }

  /** `c` is the number of leading bits on which `x` and `y` agree. */
  predicate IsCommonPrefix(x: U32, y: U32, c: Prefix)
  {
    High(x, c) == High(y, c) && (c < 32 ==> High(x, c + 1) != High(y, c + 1))
  }

  /** The counting loop: compare bit 31 down to bit 0 and stop at the first difference. */
  method CommonPrefixLength(x: U32, y: U32) returns (common: Prefix)
    ensures IsCommonPrefix(x, y, common)
  {
    common := 0;
    HighEnds(x);
    HighEnds(y);
    var i := 31;
    while i >= 0
      invariant -1 <= i <= 31 && common == 31 - i
      invariant High(x, common) == High(y, common)
      decreases i
    {
      // (x >>> i) & 1 and (y >>> i) & 1
      var bitF := Bit(x, i);
      var bitL := Bit(y, i);
      HighStep(x, common);
      HighStep(y, common);
      if bitF == bitL {
        common := common + 1;
      } else {
        break;
      }
      i := i - 1;
    }
  }

  /** The addresses agree on their top `k` bits exactly for `k` up to the common prefix. */
  lemma CommonPrefixAgreement(x: U32, y: U32, c: Prefix, k: Prefix)
    requires IsCommonPrefix(x, y, c)
    ensures High(x, k) == High(y, k) <==> k <= c
  {
    if k <= c {
      HighPrefix(x, k, c);
      HighPrefix(y, k, c);
    } else {
      HighPrefix(x, c + 1, k);
      HighPrefix(y, c + 1, k);
    }
  }

  /** Two addresses have one common prefix length. */
  lemma CommonPrefixUnique(x: U32, y: U32, c1: Prefix, c2: Prefix)
    requires IsCommonPrefix(x, y, c1) && IsCommonPrefix(x, y, c2)
    ensures c1 == c2
  {
    CommonPrefixAgreement(x, y, c1, c2);
    CommonPrefixAgreement(x, y, c2, c1);
  }

  /** All 32 bits agree exactly when the addresses are equal. */
  lemma CommonPrefixFull(x: U32, y: U32, c: Prefix)
    requires IsCommonPrefix(x, y, c)
    ensures c == 32 <==> x == y
  {
    HighEnds(x);
    HighEnds(y);
    CommonPrefixAgreement(x, y, c, 32);
  }

  /** Below the common prefix, the first bit that differs is 0 in the lower address and 1 in the higher. */
  lemma FirstDifferingBit(x: U32, y: U32, c: Prefix)
    requires x <= y && IsCommonPrefix(x, y, c) && c < 32
    ensures Bit(x, 31 - c) == 0 && Bit(y, 31 - c) == 1
  {
    HighStep(x, c);
    HighStep(y, c);
    HighMonotone(x, y, c + 1);
  }

  /** Taking the top bits keeps the order of addresses. */
  lemma HighMonotone(x: U32, y: U32, k: Prefix)
    requires x <= y
    ensures High(x, k) <= High(y, k)
  {
    var h: nat := 32 - k;
    DivMonotone(x, y, Pow2(h));
  }

  lemma DivMonotone(x: nat, y: nat, d: nat)
    requires x <= y && d > 0
    ensures x / d <= y / d
  {
    if x / d > y / d {
      FloorMultiple(x, d);
      FloorMultiple(y, d);
      MulMonotone(y / d + 1, x / d, d);
    }
  }

  /** `a.b.c.d/p`, the summary route as text. */
  function RouteText(network: U32, prefix: Prefix): string
  {
    OctetsToIP(FromInt(network)) + "/" + ToRadix(prefix, 10)
  }

  /** The route text reads back, through `parseCIDR`, as the summary network and prefix. */
  lemma RouteTextParses(network: U32, prefix: Prefix)
    ensures ParseCidr(RouteText(network, prefix)) == Success(Cidr(FromInt(network), Some(prefix)))
  {
    ParseCidrRoundTrip(FromInt(network), prefix);
  }

  /** `s` summarises the addresses `keys`: the common prefix of the least and the greatest, applied to the least. */
  predicate Summarizes(keys: seq<U32>, s: Summary)
    requires |keys| > 0
  {
    var lo, hi := Lowest(keys), Highest(keys);
    && IsCommonPrefix(lo, hi, s.prefix)
    && s.network == Network(lo, s.prefix)
    && s.text == RouteText(s.network, s.prefix) + NOTE
  }

  /** `calcSupernet`: the summary route of the aggregation list. */
  method CalcSupernet(text: string) returns (r: Result<Summary, SupernetError>)
    ensures r == Failure(NoNetworks) <==> EntryLines(text) == []
    ensures (r.Failure? && r.error.BadEntry?) <==> EntryLines(text) != [] && ParseEntries(EntryLines(text)).Failure?
    ensures r.Failure? && r.error.BadEntry? ==> r.error.cause == ParseEntries(EntryLines(text)).error
    ensures r.Success? ==> var nets := ParseEntries(EntryLines(text));
      && nets.Success? && |nets.value| > 0 && Summarizes(AddressKeys(nets.value), r.value)
  {
    var lines := EntryLines(text);
    if |lines| == 0 {
      return Failure(NoNetworks);
    }
    var parsed := ParseEntries(lines);
    if parsed.Failure? {
      return Failure(BadEntry(parsed.error));
    }
    var keys := AddressKeys(parsed.value);
    var firstInt, lastInt := Lowest(keys), Highest(keys);
    var common := CommonPrefixLength(firstInt, lastInt);
    var summaryNet := Network(firstInt, common);
    r := Success(Summary(summaryNet, common, RouteText(summaryNet, common) + NOTE));
  }

  /** Every listed address, masked by the summary prefix, gives the summary network. */
  lemma SummaryCovers(keys: seq<U32>, s: Summary, k: U32)
    requires |keys| > 0 && Summarizes(keys, s) && k in keys
    ensures Network(k, s.prefix) == s.network
  {
    var lo, hi := Lowest(keys), Highest(keys);
    HighMonotone(lo, k, s.prefix);
    HighMonotone(k, hi, s.prefix);
    InBlockNetwork(k, lo, s.prefix);
  }

  /** No longer prefix covers the list: the least and the greatest address fall in different blocks of it. */
  lemma SummaryTightest(keys: seq<U32>, s: Summary)
    requires |keys| > 0 && Summarizes(keys, s) && s.prefix < 32
    ensures Network(Lowest(keys), s.prefix + 1) != Network(Highest(keys), s.prefix + 1)
  {
    InBlockNetwork(Lowest(keys), Highest(keys), s.prefix + 1);
  }

  /** The summary is a host route exactly when every listed address is the same. */
  lemma SummaryHostRoute(keys: seq<U32>, s: Summary)
    requires |keys| > 0 && Summarizes(keys, s)
    ensures s.prefix == 32 <==> forall j, k :: j in keys && k in keys ==> j == k
  {
    var lo, hi := Lowest(keys), Highest(keys);
    CommonPrefixFull(lo, hi, s.prefix);
  }

  /** Lists with the same addresses have the same least and greatest address. */
  lemma SameExtremes(a: seq<U32>, b: seq<U32>)
    requires |a| > 0 && |b| > 0 && multiset(a) == multiset(b)
    ensures Lowest(a) == Lowest(b) && Highest(a) == Highest(b)
  {
    var loA, loB, hiA, hiB := Lowest(a), Lowest(b), Highest(a), Highest(b);
    assert loA in multiset(a) && hiA in multiset(a);
    assert loB in multiset(b) && hiB in multiset(b);
    assert loA in b && hiA in b && loB in a && hiB in a;
  }

  /** The summary depends on the listed addresses, not on their order. */
  lemma SummaryOrderIndependent(a: seq<U32>, b: seq<U32>, s1: Summary, s2: Summary)
    requires |a| > 0 && multiset(a) == multiset(b)
    requires Summarizes(a, s1)
    requires |b| > 0 && Summarizes(b, s2)
    ensures s1 == s2
  {
    SameExtremes(a, b);
    CommonPrefixUnique(Lowest(a), Highest(a), s1.prefix, s2.prefix);
  }
}
