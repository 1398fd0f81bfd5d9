/**
 * IPv6 text (`normalizeIPv6` and `calcIPv6` in app.js): the address is
 * lower-cased and stripped of whitespace, a `::` is replaced by enough
 * `"0"` groups to make eight, and the result is accepted when it consists
 * of eight groups of at most four lower-case hexadecimal digits.  The
 * groups are not padded to four digits and no compressed form is derived:
 * the input text is shown as the network and as the compressed form.
 */
module Ipv6 {
  import opened Wrappers
  import opened Text
  import opened AddressCodec

  datatype Ipv6Error = MissingAddress | InvalidIpv6

  function Ipv6Message(e: Ipv6Error): string
  {
    match e
    case MissingAddress => "Enter IPv6 address"
    case InvalidIpv6 => "Invalid IPv6"
  }

  /** The two messages differ, so the message shown names the error. */
  lemma Ipv6MessagesDistinct(a: Ipv6Error, b: Ipv6Error)
    requires Ipv6Message(a) == Ipv6Message(b)
    ensures a == b
  {
  }

  /** What `calcIPv6` displays: the network and compressed fields echo the input. */
  datatype Ipv6View = Ipv6View(network: string, prefix: Option<int>, full: string, compressed: string)

  predicate IsHexDigit(c: char)
  {
    '0' <= c <= '9' || 'a' <= c <= 'f'
  }

  /** A group matches `/^[0-9a-f]{0,4}$/`. */
  predicate IsHexGroup(p: string)
  {
    |p| <= 4 && forall i :: 0 <= i < |p| ==> IsHexDigit(p[i])
  }

  /** The text the expansion starts from: `ip.toLowerCase().replace(/\s/g, "")`. */
  function Cleaned(text: string): string
  {
    RemoveWhitespace(LowerAscii(text))
  }

  /** `s ? s.split(":") : []`: the colon-separated groups of one side of `::`. */
  function Parts(s: string): seq<string>
  {
    if s == "" then [] else Split(s, ":")
  }

  /** `Array(k).fill("0")`. */
  function Zeros(k: nat): (z: seq<string>)
    ensures |z| == k && forall i :: 0 <= i < k ==> z[i] == "0"
  {
    seq(k, _ => "0")
  }

  /** The groups left of the first `::`. */
  function LeftParts(ip: string): seq<string>
    requires Find(ip, "::").Some?
  {
    Parts(Split(ip, "::")[0])
  }

  /** The groups between the first and the second `::`; anything after a second `::` is dropped. */
  function RightParts(ip: string): seq<string>
    requires Find(ip, "::").Some?
  {
    SplitFound(ip, "::");
    Parts(Split(ip, "::")[1])
  }

  /** `Math.max(1, 8 - |L| - |R|)`: the number of `"0"` groups put in place of `::`. */
  function Filler(left: seq<string>, right: seq<string>): nat
  {
    var missing := 8 - |left| - |right|;
    if missing > 1 then missing else 1
  }

  /** The expansion of `::` in cleaned text; text without `::` is returned as it is. */
  function Expand(ip: string): string
  {
    if Find(ip, "::").Some? then
      var left, right := LeftParts(ip), RightParts(ip);
      Join(left + Zeros(Filler(left, right)) + right, ":")
    else ip
  }

  /** `normalizeIPv6`: the expansion is lower-case and has no whitespace. */
  function NormalizeIPv6(text: string): (full: string)
    ensures IsClean(full)
  {
    CleanedIsClean(text);
    ExpandKeepsClean(Cleaned(text));
    Expand(Cleaned(text))
  }

  /** The check of `calcIPv6`: eight groups, each of up to four hexadecimal digits. */
  predicate IsFullForm(full: string)
  {
    var parts := Split(full, ":");
    |parts| == 8 && forall k :: 0 <= k < 8 ==> IsHexGroup(parts[k])
  }

  /**
   * The cleaned texts that `calcIPv6` accepts, read off the text itself:
   * without `::`, eight groups of up to four hexadecimal digits; with `::`,
   * at most seven groups on its two sides together, each such a group.
   */
  predicate IsAcceptedShape(ip: string)
  {
    if Find(ip, "::").Some? then
      var left, right := LeftParts(ip), RightParts(ip);
      && |left| + |right| <= 7
      && (forall k :: 0 <= k < |left| ==> IsHexGroup(left[k]))
      && (forall k :: 0 <= k < |right| ==> IsHexGroup(right[k]))
    else
      IsFullForm(ip)
  }

  /** `calcIPv6`: the prefix is read with `parseInt` and shown as it is. */
  function CalcIpv6(text: string, prefixText: string): (r: Result<Ipv6View, Ipv6Error>)
    ensures r == Failure(MissingAddress) <==> text == ""
    ensures r == Failure(InvalidIpv6) <==> text != "" && !IsAcceptedShape(Cleaned(text))
    ensures r.Success? ==> IsFullForm(r.value.full) && IsClean(r.value.full)
    ensures r.Success? ==> r.value.full == NormalizeIPv6(text) && r.value.network == text && r.value.compressed == text
    ensures r.Success? ==> r.value.prefix == ParseInt(prefixText)
  {
    AcceptedShapeExpands(Cleaned(text));
    if text == "" then Failure(MissingAddress)
    else
      var full := NormalizeIPv6(text);
      if !IsFullForm(full) then Failure(InvalidIpv6)
      else Success(Ipv6View(text, ParseInt(prefixText), full, text))
  }

  /** A separator that occurs splits the text into at least two parts. */
  lemma SplitFound(s: string, sep: string)
    requires |sep| > 0 && Find(s, sep).Some?
    ensures |Split(s, sep)| >= 2
  {
  }

  // ---------------------------------------------------------------------------
  // Properties of the expansion

  /** Characters that survive the cleaning: no whitespace and no upper-case ASCII letter. */
  predicate IsClean(s: string)
  {
    forall i :: 0 <= i < |s| ==> !IsWhitespace(s[i]) && !IsUpperAscii(s[i])
  }

  /** The expansion adds nothing but colons and zeros to clean text. */
  lemma ExpandKeepsClean(ip: string)
    requires IsClean(ip)
    ensures IsClean(Expand(ip))
  {
    if Find(ip, "::").Some? {
      var halves := Split(ip, "::");
      SplitFound(ip, "::");
      PartsClean(halves, "::");
      var left, right := LeftParts(ip), RightParts(ip);
      PartsOfClean(halves[0]);
      PartsOfClean(halves[1]);
      var all := left + Zeros(Filler(left, right)) + right;
      assert forall k :: 0 <= k < |all| ==> IsClean(all[k]) by {
        forall k | 0 <= k < |all|
          ensures IsClean(all[k])
        {
          if k < |left| {
            assert all[k] == left[k];
          } else if k < |left| + Filler(left, right) {
            assert all[k] == "0";
          } else {
            assert all[k] == right[k - |left| - Filler(left, right)];
          }
        }
      }
      JoinClean(all, ":");
    }
  }

  lemma CleanedIsClean(text: string)
    ensures IsClean(Cleaned(text))
  {
    var lower := LowerAscii(text);
    var ip := RemoveWhitespace(lower);
    forall i | 0 <= i < |ip|
      ensures !IsWhitespace(ip[i]) && !IsUpperAscii(ip[i])
    {
      assert ip[i] in ip;
      var j :| 0 <= j < |lower| && lower[j] == ip[i];
    }
  }

  /** The groups of a clean side of `::` are clean. */
  lemma PartsOfClean(s: string)
    requires IsClean(s)
    ensures forall k :: 0 <= k < |Parts(s)| ==> IsClean(Parts(s)[k])
  {
    if s != "" {
      PartsClean(Split(s, ":"), ":");
    }
  }

  /** The parts of a clean joined text are clean. */
  lemma PartsClean(parts: seq<string>, sep: string)
    requires IsClean(Join(parts, sep))
    ensures forall k :: 0 <= k < |parts| ==> IsClean(parts[k])
  {
    forall k, i | 0 <= k < |parts| && 0 <= i < |parts[k]|
      ensures !IsWhitespace(parts[k][i]) && !IsUpperAscii(parts[k][i])
    {
      JoinContainsParts(parts, sep, k);
      assert parts[k][i] in parts[k];
    }
  }

  /** Every character of every part occurs in the joined text. */
  lemma {:induction false} JoinContainsParts(parts: seq<string>, sep: string, k: nat)
    requires k < |parts|
    ensures forall c :: c in parts[k] ==> c in Join(parts, sep)
  {
    if |parts| > 1 {
      assert Join(parts, sep) == parts[0] + sep + Join(parts[1..], sep);
      if k > 0 {
        JoinContainsParts(parts[1..], sep, k - 1);
        assert parts[1..][k - 1] == parts[k];
      }
    }
  }

  /** Joining clean parts with a colon gives a clean text. */
  lemma JoinClean(parts: seq<string>, sep: string)
    requires sep == ":" && forall k :: 0 <= k < |parts| ==> IsClean(parts[k])
    ensures IsClean(Join(parts, sep))
  {
    var s := Join(parts, sep);
    JoinChars(parts, sep);
    forall i | 0 <= i < |s|
      ensures !IsWhitespace(s[i]) && !IsUpperAscii(s[i])
    {
      assert s[i] in s;
      if s[i] !in sep {
        var k :| 0 <= k < |parts| && s[i] in parts[k];
        var j :| 0 <= j < |parts[k]| && parts[k][j] == s[i];
      }
    }
  }

  /** Text that is already clean is left as it is by the cleaning. */
  lemma CleanUnchanged(s: string)
    requires IsClean(s)
    ensures Cleaned(s) == s
  {
    var lower := LowerAscii(s);
    assert lower == s;
    assert NoWhitespace(s);
  }

  /** Without `::`, normalising only cleans the text, so clean text comes back unchanged. */
  lemma NoGapOnlyCleans(text: string)
    requires Find(Cleaned(text), "::").None?
    ensures NormalizeIPv6(text) == Cleaned(text)
    ensures IsClean(text) ==> NormalizeIPv6(text) == text
  {
    if IsClean(text) {
      CleanUnchanged(text);
    }
  }

  /**
   * With `::`, the groups of the expansion are the left groups, then
   * `max(1, 8 - |L| - |R|)` groups `"0"`, then the right groups, each in
   * its place.
   */
  lemma ExpandedGroups(ip: string)
    requires Find(ip, "::").Some?
    ensures var left, right := LeftParts(ip), RightParts(ip);
      Split(Expand(ip), ":") == left + Zeros(Filler(left, right)) + right
  {
    var halves := Split(ip, "::");
    SplitFound(ip, "::");
    var left, right := LeftParts(ip), RightParts(ip);
    var all := left + Zeros(Filler(left, right)) + right;
    PartsNoColon(halves[0]);
    PartsNoColon(halves[1]);
    assert forall k :: 0 <= k < |all| ==> ':' !in all[k] by {
      forall k | 0 <= k < |all|
        ensures ':' !in all[k]
      {
        if k < |left| {
          assert all[k] == left[k];
        } else if k < |left| + Filler(left, right) {
          assert all[k] == "0";
        } else {
          assert all[k] == right[k - |left| - Filler(left, right)];
        }
      }
    }
    SplitJoin(all, ':');
  }

  /** The groups of one side of `::` contain no colon. */
  lemma PartsNoColon(s: string)
    ensures forall k :: 0 <= k < |Parts(s)| ==> ':' !in Parts(s)[k]
  {
    if s != "" {
      var parts := Split(s, ":");
      forall k | 0 <= k < |parts|
        ensures ':' !in parts[k]
      {
        forall i | 0 <= i < |parts[k]|
          ensures parts[k][i] != ':'
        {
          OccursAtChar(parts[k], ':', i);
        }
      }
    }
  }

  /** The expansion has eight groups exactly when the two sides hold at most seven between them. */
  lemma ExpandedGroupCount(ip: string)
    requires Find(ip, "::").Some?
    ensures |Split(Expand(ip), ":")| == 8 <==> |LeftParts(ip)| + |RightParts(ip)| <= 7
  {
    ExpandedGroups(ip);
  }

  /** The expansion passes the eight-group check exactly when the cleaned text has an accepted shape. */
  lemma AcceptedShapeExpands(ip: string)
    ensures IsFullForm(Expand(ip)) <==> IsAcceptedShape(ip)
  {
    if Find(ip, "::").Some? {
      ExpandedGroups(ip);
      var left, right := LeftParts(ip), RightParts(ip);
      var n := Filler(left, right);
      HexAround(left, right, n);
      assert Split(Expand(ip), ":") == left + Zeros(n) + right;
    }
  }

  /** Groups with `"0"` groups between them are all hexadecimal iff the groups on both sides are. */
  lemma HexAround(left: seq<string>, right: seq<string>, n: nat)
    ensures var all := left + Zeros(n) + right;
      (forall k :: 0 <= k < |all| ==> IsHexGroup(all[k])) <==>
      (forall k :: 0 <= k < |left| ==> IsHexGroup(left[k])) && (forall k :: 0 <= k < |right| ==> IsHexGroup(right[k]))
  {
    var all := left + Zeros(n) + right;
    forall k | 0 <= k < |left|
      ensures all[k] == left[k]
    {
    }
    forall k | 0 <= k < |right|
      ensures all[|left| + n + k] == right[k]
    {
    }
    forall k | |left| <= k < |left| + n
      ensures all[k] == "0"
    {
    }
  }

  /** Text with `::` whose two sides hold eight groups or more is rejected: the filler adds at least one. */
  lemma OverfullRejected(text: string, prefixText: string)
    requires text != "" && Find(Cleaned(text), "::").Some?
    requires |LeftParts(Cleaned(text))| + |RightParts(Cleaned(text))| >= 8
    ensures CalcIpv6(text, prefixText) == Failure(InvalidIpv6)
  {
    ExpandedGroupCount(Cleaned(text));
  }

  /** A group as written in an address: one to four lower-case hexadecimal digits. */
  predicate IsWrittenGroup(g: string)
  {
    |g| > 0 && IsHexGroup(g)
  }

  /** The colon-joined text of written groups. */
  lemma WrittenJoin(groups: seq<string>)
    requires forall k :: 0 <= k < |groups| ==> IsWrittenGroup(groups[k])
    ensures IsClean(Join(groups, ":"))
    ensures forall j :: !OccursAt(Join(groups, ":"), "::", j)
  {
    forall k | 0 <= k < |groups|
      ensures IsClean(groups[k]) && ':' !in groups[k] && |groups[k]| > 0
    {
      assert forall i :: 0 <= i < |groups[k]| ==> IsHexDigit(groups[k][i]);
    }
    JoinClean(groups, ":");
    NoDoubleColon(groups);
  }

  /** Joining non-empty groups without colons with single colons never puts two colons side by side. */
  lemma {:induction false} NoDoubleColon(groups: seq<string>)
    requires forall k :: 0 <= k < |groups| ==> |groups[k]| > 0 && ':' !in groups[k]
    ensures forall j :: !OccursAt(Join(groups, ":"), "::", j)
  {
    var s := Join(groups, ":");
    if |groups| > 1 {
      var g, rest := groups[0], Join(groups[1..], ":");
      NoDoubleColon(groups[1..]);
      JoinEnds(groups[1..], ":");
      assert s == g + ":" + rest;
      assert rest[0] != ':' by {
        assert rest[0] == groups[1][0];
      }
      forall j
        ensures !OccursAt(s, "::", j)
      {
        PairAt(s, j);
        PairAt(rest, j - |g| - 1);
        if 0 <= j < |g| {
          assert s[j] == g[j];
        } else if j > |g| && j + 2 <= |s| {
          assert s[j] == rest[j - |g| - 1] && s[j + 1] == rest[j - |g|];
        }
      }
    } else if |groups| == 1 {
      forall j
        ensures !OccursAt(s, "::", j)
      {
        PairAt(s, j);
      }
    }
  }

  /** `::` at `j` is a colon at `j` and one at `j + 1`. */
  lemma PairAt(s: string, j: int)
    ensures OccursAt(s, "::", j) <==> 0 <= j && j + 2 <= |s| && s[j] == ':' && s[j + 1] == ':'
  {
    if 0 <= j && j + 2 <= |s| {
      assert s[j..j + 2] == [s[j], s[j + 1]];
    }
  }

  /** Eight written groups joined by colons are accepted and come back unchanged as the full form. */
  lemma FullFormAccepted(groups: seq<string>, prefixText: string)
    requires |groups| == 8 && forall k :: 0 <= k < 8 ==> IsWrittenGroup(groups[k])
    ensures var text := Join(groups, ":");
      && CalcIpv6(text, prefixText).Success?
      && CalcIpv6(text, prefixText).value.full == text
  {
    var text := Join(groups, ":");
    WrittenJoin(groups);
    CleanUnchanged(text);
    assert Find(Cleaned(text), "::").None?;
    assert forall k :: 0 <= k < 8 ==> ':' !in groups[k] by {
      forall k | 0 <= k < 8
        ensures ':' !in groups[k]
      {
        assert forall i :: 0 <= i < |groups[k]| ==> IsHexDigit(groups[k][i]);
      }
    }
    SplitJoin(groups, ':');
  }

  /**
   * Compressing a run of groups to `::` and expanding it again gives the
   * groups back, with `"0"` in place of each group of the run.
   */
  lemma CompressedExpands(left: seq<string>, right: seq<string>, prefixText: string)
    requires |left| + |right| <= 7
    requires forall k :: 0 <= k < |left| ==> IsWrittenGroup(left[k])
    requires forall k :: 0 <= k < |right| ==> IsWrittenGroup(right[k])
    ensures var text := Join(left, ":") + "::" + Join(right, ":");
      var full := Join(left + Zeros(8 - |left| - |right|) + right, ":");
      && NormalizeIPv6(text) == full
      && CalcIpv6(text, prefixText).Success?
      && CalcIpv6(text, prefixText).value.full == full
  {
    var a, b := Join(left, ":"), Join(right, ":");
    var text := a + "::" + b;
    WrittenJoin(left);
    WrittenJoin(right);
    GapTextClean(a, b);
    CleanUnchanged(text);
    SplitAtGap(left, a, b, text);
    SidesParse(left, a);
    SidesParse(right, b);
    ExpandGap(text, left, right);
    WrittenGroups(left, right);
    FullFormAccepted(left + Zeros(8 - |left| - |right|) + right, prefixText);
  }

  /** Two clean sides joined by `::` make a clean text. */
  lemma GapTextClean(a: string, b: string)
    requires IsClean(a) && IsClean(b)
    ensures IsClean(a + "::" + b)
  {
    var text := a + "::" + b;
    forall i | 0 <= i < |text|
      ensures !IsWhitespace(text[i]) && !IsUpperAscii(text[i])
    {
      if i < |a| {
        assert text[i] == a[i];
      } else if i >= |a| + 2 {
        assert text[i] == b[i - |a| - 2];
      }
    }
  }

  /** Expanding text whose sides of `::` hold at most seven groups fills in exactly the missing groups. */
  lemma ExpandGap(ip: string, left: seq<string>, right: seq<string>)
    requires Find(ip, "::").Some?
    requires LeftParts(ip) == left && RightParts(ip) == right
    requires |left| + |right| <= 7
    ensures Expand(ip) == Join(left + Zeros(8 - |left| - |right|) + right, ":")
  {
    assert Filler(left, right) == 8 - |left| - |right|;
  }

  /** Written groups around a run of `"0"` groups make eight written groups. */
  lemma WrittenGroups(left: seq<string>, right: seq<string>)
    requires |left| + |right| <= 7
    requires forall k :: 0 <= k < |left| ==> IsWrittenGroup(left[k])
    requires forall k :: 0 <= k < |right| ==> IsWrittenGroup(right[k])
    ensures var all := left + Zeros(8 - |left| - |right|) + right;
      |all| == 8 && forall k :: 0 <= k < 8 ==> IsWrittenGroup(all[k])
  {
    var all := left + Zeros(8 - |left| - |right|) + right;
    forall k | 0 <= k < 8
      ensures IsWrittenGroup(all[k])
    {
      if k < |left| {
        assert all[k] == left[k];
      } else if k < 8 - |right| {
        assert all[k] == "0";
        assert IsHexDigit(all[k][0]);
      } else {
        assert all[k] == right[k - (8 - |right|)];
      }
    }
  }

  /** The groups of a side of `::` written from groups are those groups. */
  lemma SidesParse(groups: seq<string>, s: string)
    requires s == Join(groups, ":")
    requires forall k :: 0 <= k < |groups| ==> IsWrittenGroup(groups[k])
    ensures Parts(s) == groups
  {
    if |groups| > 0 {
      assert forall k :: 0 <= k < |groups| ==> ':' !in groups[k] by {
        forall k | 0 <= k < |groups|
          ensures ':' !in groups[k]
        {
          assert forall i :: 0 <= i < |groups[k]| ==> IsHexDigit(groups[k][i]);
        }
      }
      JoinEnds(groups, ":");
      SplitJoin(groups, ':');
    }
  }

  /** `(a + "::" + b).split("::")` is `[a, b]` when neither side contains `::` and `a` ends in a group. */
  lemma SplitAtGap(left: seq<string>, a: string, b: string, text: string)
    requires a == Join(left, ":") && text == a + "::" + b
    requires forall k :: 0 <= k < |left| ==> IsWrittenGroup(left[k])
    requires forall j :: !OccursAt(a, "::", j)
    requires forall j :: !OccursAt(b, "::", j)
    ensures Find(text, "::") == Some(|a|)
    ensures Split(text, "::") == [a, b]
  {
    assert text[|a|..|a| + 2] == "::";
    assert OccursAt(text, "::", |a|);
    if |a| > 0 {
      LastNotColon(left, a);
    }
    forall j | 0 <= j < |a|
      ensures !OccursAt(text, "::", j)
    {
      PairAt(text, j);
      PairAt(a, j);
      assert text[j] == a[j];
      if j + 1 < |a| {
        assert text[j + 1] == a[j + 1];
      }
    }
    assert text[|a| + 2..] == b;
    assert text[..|a|] == a;
  }

  /** A join of written groups does not end in a colon. */
  lemma LastNotColon(left: seq<string>, a: string)
    requires a == Join(left, ":") && |a| > 0
    requires forall k :: 0 <= k < |left| ==> IsWrittenGroup(left[k])
    ensures a[|a| - 1] != ':'
  {
    var g := left[|left| - 1];
    JoinEnds(left, ":");
    assert IsHexDigit(g[|g| - 1]);
  }
}
