/**
 * The JavaScript string operations the addressing engine relies on:
 * whitespace as `String.prototype.trim` and the regular expression `\s`
 * see it, ASCII lower-casing, `split` and `join` with a separator string,
 * and the radix conversions of `Number.prototype.toString`, `parseInt` and
 * `padStart`.
 */
module Text {
  import opened Wrappers

  /** ECMAScript WhiteSpace and LineTerminator code points. */
  predicate IsWhitespace(c: char)
  {
    || c == '\t' || c == '\n' || c == '\U{000B}' || c == '\U{000C}' || c == '\r' || c == ' '
    || c == '\U{00A0}' || c == '\U{1680}' || ('\U{2000}' <= c <= '\U{200A}')
    || c == '\U{2028}' || c == '\U{2029}' || c == '\U{202F}' || c == '\U{205F}'
    || c == '\U{3000}' || c == '\U{FEFF}'
  }

  predicate NoWhitespace(s: string)
  {
    forall i :: 0 <= i < |s| ==> !IsWhitespace(s[i])
  }

  function TrimStart(s: string): (r: string)
    ensures |r| <= |s| && r == s[|s| - |r|..]
    ensures forall i :: 0 <= i < |s| - |r| ==> IsWhitespace(s[i])
    ensures r == [] || !IsWhitespace(r[0])
  {
    if |s| > 0 && IsWhitespace(s[0]) then TrimStart(s[1..]) else s
  }

  function TrimEnd(s: string): (r: string)
    ensures |r| <= |s| && r == s[..|r|]
    ensures forall i :: |r| <= i < |s| ==> IsWhitespace(s[i])
    ensures r == [] || !IsWhitespace(r[|r| - 1])
  {
    if |s| > 0 && IsWhitespace(s[|s| - 1]) then TrimEnd(s[..|s| - 1]) else s
  }

  /** `String.prototype.trim`: drops leading and trailing whitespace. */
  function Trim(s: string): (r: string)
    ensures r == [] || (!IsWhitespace(r[0]) && !IsWhitespace(r[|r| - 1]))
  {
    TrimEnd(TrimStart(s))
  }

  /** A text that neither starts nor ends with whitespace is its own trim. */
  lemma TrimUnchanged(s: string)
    requires |s| > 0 && !IsWhitespace(s[0]) && !IsWhitespace(s[|s| - 1])
    ensures Trim(s) == s
  {
    assert TrimStart(s) == s;
  }

  /** `s.replace(/\s/g, "")`. */
  function RemoveWhitespace(s: string): (r: string)
    ensures NoWhitespace(r)
    ensures forall c :: c in r ==> c in s
    ensures NoWhitespace(s) ==> r == s
  {
    if |s| == 0 then ""
    else if IsWhitespace(s[0]) then RemoveWhitespace(s[1..])
    else [s[0]] + RemoveWhitespace(s[1..])
  }

  predicate IsUpperAscii(c: char)
  {
    'A' <= c <= 'Z'
  }

  function LowerChar(c: char): (d: char)
    ensures !IsUpperAscii(d)
  {
    if IsUpperAscii(c) then (c as int + 32) as char else c
  }

  /** `toLowerCase` on the ASCII letters. */
  function LowerAscii(s: string): (r: string)
    ensures |r| == |s|
    ensures forall i :: 0 <= i < |s| ==> r[i] == LowerChar(s[i])
  {
    seq(|s|, i requires 0 <= i < |s| => LowerChar(s[i]))
  }

  /** `sep` occurs in `s` starting at index `i`. */
  predicate OccursAt(s: string, sep: string, i: int)
  {
    0 <= i && i + |sep| <= |s| && s[i..i + |sep|] == sep
  }

  lemma OccursAtShift(s: string, sep: string, i: int)
    requires |s| > 0 && i >= 0
    ensures OccursAt(s, sep, i + 1) <==> OccursAt(s[1..], sep, i)
  {
    if 0 <= i && i + 1 + |sep| <= |s| {
      assert s[1..][i..i + |sep|] == s[i + 1..i + 1 + |sep|];
    }
  }

  lemma OccursAtChar(s: string, c: char, i: int)
    ensures OccursAt(s, [c], i) <==> 0 <= i < |s| && s[i] == c
  {
    if 0 <= i < |s| {
      assert s[i..i + 1] == [s[i]];
    }
  }

  /** `s.indexOf(sep)`: the first occurrence of `sep` in `s`, if any. */
  function Find(s: string, sep: string): (r: Option<nat>)
    ensures r.Some? ==> OccursAt(s, sep, r.value)
    ensures r.Some? ==> forall j :: 0 <= j < r.value ==> !OccursAt(s, sep, j)
    ensures r.None? ==> forall j :: !OccursAt(s, sep, j)
    decreases |s|
  {
    if |s| < |sep| then None
    else if s[..|sep|] == sep then Some(0)
    else
      var rest := Find(s[1..], sep);
      FindShift(s, sep, rest);
      if rest.None? then None else Some(rest.value + 1)
  }

  lemma FindShift(s: string, sep: string, rest: Option<nat>)
    requires |s| >= |sep| && s[..|sep|] != sep
    requires rest.Some? ==> OccursAt(s[1..], sep, rest.value)
    requires rest.Some? ==> forall j :: 0 <= j < rest.value ==> !OccursAt(s[1..], sep, j)
    requires rest.None? ==> forall j :: !OccursAt(s[1..], sep, j)
    ensures rest.Some? ==> OccursAt(s, sep, rest.value + 1)
    ensures rest.Some? ==> forall j :: 0 <= j < rest.value + 1 ==> !OccursAt(s, sep, j)
    ensures rest.None? ==> forall j :: !OccursAt(s, sep, j)
  {
    forall j
      ensures OccursAt(s, sep, j) <==> (j > 0 && OccursAt(s[1..], sep, j - 1))
    {
      if j > 0 {
        OccursAtShift(s, sep, j - 1);
      }
    }
  }

  /** `s.split(sep)` for a non-empty separator string. */
  function Split(s: string, sep: string): (parts: seq<string>)
    requires |sep| > 0
    ensures |parts| >= 1
    ensures Join(parts, sep) == s
    ensures forall k, j :: 0 <= k < |parts| ==> !OccursAt(parts[k], sep, j)
    decreases |s|
  {
    var found := Find(s, sep);
    match found
    case None => [s]
    case Some(i) =>
      var rest := Split(s[i + |sep|..], sep);
      assert s == s[..i] + sep + s[i + |sep|..] by {
        assert s[i..i + |sep|] == sep;
      }
      assert forall j :: !OccursAt(s[..i], sep, j) by {
        forall j | OccursAt(s[..i], sep, j)
          ensures false
        {
          assert s[..i][j..j + |sep|] == s[j..j + |sep|];
          assert OccursAt(s, sep, j) && j < i;
        }
      }
      [s[..i]] + rest
  }

  /** `parts.join(sep)`. */
  function Join(parts: seq<string>, sep: string): string
  {
    if |parts| == 0 then ""
    else if |parts| == 1 then parts[0]
    else parts[0] + sep + Join(parts[1..], sep)
  }

  /** Every character of a joined text comes from a part or from the separator. */
  lemma {:induction false} JoinChars(parts: seq<string>, sep: string)
    ensures forall c :: c in Join(parts, sep) ==> c in sep || exists k :: 0 <= k < |parts| && c in parts[k]
  {
    if |parts| > 1 {
      JoinChars(parts[1..], sep);
      forall c | c in Join(parts, sep)
        ensures c in sep || exists k :: 0 <= k < |parts| && c in parts[k]
      {
        assert Join(parts, sep) == parts[0] + sep + Join(parts[1..], sep);
        if c !in parts[0] && c !in sep {
          var k :| 0 <= k < |parts[1..]| && c in parts[1..][k];
          assert c in parts[k + 1];
        }
      }
    }
  }

  /** A join starts with its first part and ends with its last one. */
  lemma {:induction false} JoinEnds(parts: seq<string>, sep: string)
    requires |parts| >= 1 && forall k :: 0 <= k < |parts| ==> |parts[k]| > 0
    ensures |Join(parts, sep)| > 0 && Join(parts, sep)[0] == parts[0][0]
    ensures Join(parts, sep)[|Join(parts, sep)| - 1] == parts[|parts| - 1][|parts[|parts| - 1]| - 1]
  {
    if |parts| > 1 {
      JoinEnds(parts[1..], sep);
    }
  }

  /** Splitting on a character undoes joining with it, when no part contains it. */
  lemma {:induction false} SplitJoin(parts: seq<string>, c: char)
    requires |parts| >= 1
    requires forall k :: 0 <= k < |parts| ==> c !in parts[k]
    ensures Split(Join(parts, [c]), [c]) == parts
  {
    var s := Join(parts, [c]);
    var p := parts[0];
    forall j
      ensures !OccursAt(p, [c], j)
    {
      OccursAtChar(p, c, j);
    }
    if |parts| == 1 {
      assert Find(s, [c]) == None;
    } else {
      var tail := Join(parts[1..], [c]);
      assert s == p + [c] + tail;
      forall j | 0 <= j < |p|
        ensures !OccursAt(s, [c], j)
      {
        OccursAtChar(s, c, j);
        OccursAtChar(p, c, j);
      }
      OccursAtChar(s, c, |p|);
      assert Find(s, [c]) == Some(|p|);
      assert s[..|p|] == p && s[|p| + 1..] == tail;
      SplitJoin(parts[1..], c);
    }
  }

  /** Digit characters of radix at most ten. */
  function DigitChar(d: nat): (c: char)
    requires d < 10
    ensures '0' <= c <= '9'
  {
    ('0' as int + d) as char
  }

  function DigitValue(c: char): nat
    requires '0' <= c <= '9'
  {
    c as int - '0' as int
  }

  predicate IsDigitString(s: string, radix: nat)
  {
    forall i :: 0 <= i < |s| ==> '0' <= s[i] <= '9' && DigitValue(s[i]) < radix
  }

  /** The number written by the digit string `s` in base `radix`. */
  function RadixValue(s: string, radix: nat): nat
    requires IsDigitString(s, radix)
  {
    if |s| == 0 then 0 else RadixValue(s[..|s| - 1], radix) * radix + DigitValue(s[|s| - 1])
  }

  /** `n.toString(radix)` for a non-negative integer and a radix from 2 to 10. */
  function ToRadix(n: nat, radix: nat): (s: string)
    requires 2 <= radix <= 10
    ensures |s| > 0 && IsDigitString(s, radix)
    ensures RadixValue(s, radix) == n
    ensures s[0] == '0' ==> s == "0"
  {
    if n < radix then [DigitChar(n)]
    else
      DivSmaller(n, radix);
      var front := ToRadix(n / radix, radix);
      RadixStep(front, n, radix);
      front + [DigitChar(n % radix)]
  }

  lemma DivSmaller(n: nat, d: nat)
    requires 2 <= d <= n
    ensures n / d < n
  {
    var q := n / d;
    assert q * d <= n;
    assert q * 2 <= q * d;
  }

  /** Appending the last digit of `n` to the digits of `n / radix` spells `n`. */
  lemma RadixStep(front: string, n: nat, radix: nat)
    requires 2 <= radix <= 10 && n >= radix
    requires |front| > 0 && IsDigitString(front, radix)
    requires RadixValue(front, radix) == n / radix
    requires front[0] == '0' ==> front == "0"
    ensures var s := front + [DigitChar(n % radix)];
      && |s| > 0 && IsDigitString(s, radix) && RadixValue(s, radix) == n
      && (s[0] == '0' ==> s == "0")
  {
    var s := front + [DigitChar(n % radix)];
    assert s[..|s| - 1] == front;
    DivModSplit(n, radix);
  }

  lemma DivModSplit(n: nat, d: nat)
    requires 0 < d <= n
    ensures n / d * d + n % d == n && n / d >= 1
  {
  }

  /** `s.padStart(width, [c])`. */
  function PadStart(s: string, width: nat, c: char): (r: string)
    ensures |r| == if |s| >= width then |s| else width
    ensures r[|r| - |s|..] == s
    ensures forall i :: 0 <= i < |r| - |s| ==> r[i] == c
  {
    if |s| >= width then s else seq(width - |s|, _ => c) + s
  }
}
