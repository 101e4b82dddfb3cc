/**
 * The few .NET string and number services the modelled code relies on:
 * ordinal `String.Replace`, `String.TrimStart(char)`, `String.IsNullOrWhiteSpace`,
 * `String.IsNullOrEmpty`, decimal `ToString()` of integers and
 * `Convert.ToInt32(s, 16)` restricted to plain hexadecimal digits.
 */
module Strings {
  import opened Wrappers

  // ---------------------------------------------------------------------------
  // String.Replace
  // ---------------------------------------------------------------------------

  /** `pat` occurs somewhere in `s` as a contiguous block. */
  predicate Contains(s: string, pat: string)
    decreases |s|
  {
    |pat| <= |s| && (s[..|pat|] == pat || (|s| > 0 && Contains(s[1..], pat)))
  }

  /**
   * Ordinal `s.Replace(pat, rep)`: scans `s` from the left, replaces every
   * occurrence of `pat` that does not overlap an earlier replaced one, and
   * never rescans the text it has just inserted. .NET throws for an empty
   * `pat`; every call in the core passes a non-empty literal.
   */
  function Replace(s: string, pat: string, rep: string): (r: string)
    requires |pat| > 0
    ensures !Contains(s, pat) ==> r == s
    ensures forall c :: c !in s && c !in rep ==> c !in r
    ensures |pat| == 1 && pat[0] !in rep ==> pat[0] !in r
    ensures |pat| == 1 && |rep| == 1 ==> |r| == |s|
    decreases |s|
  {
    if |s| < |pat| then s
    else if s[..|pat|] == pat then rep + Replace(s[|pat|..], pat, rep)
    else [s[0]] + Replace(s[1..], pat, rep)
  }

  /** What one character of the input becomes under a one-character pattern. */
  function Piece(x: char, c: char, rep: string): string {
    if x == c then rep else [x]
  }

  /**
   * Reference meaning of `Replace(s, [c], rep)`: every character equal to `c`
   * stands for one copy of `rep`, every other character for itself, read
   * from the right end so as to be independent of `Replace`'s own recursion.
   */
  function ExpandChar(s: string, c: char, rep: string): string
    decreases |s|
  {
    if s == [] then [] else ExpandChar(s[..|s| - 1], c, rep) + Piece(s[|s| - 1], c, rep)
  }

  lemma {:induction false} ReplaceCharSnoc(s: string, x: char, c: char, rep: string)
    ensures Replace(s + [x], [c], rep) == Replace(s, [c], rep) + Piece(x, c, rep)
    decreases |s|
  {
    if s == [] {
      assert [x][..1] == [x];
      assert [x][1..] == [];
    } else {
      assert (s + [x])[1..] == s[1..] + [x];
      assert (s + [x])[..1] == s[..1];
      assert (s + [x])[..1] == [s[0]];
      if s[0] == c {
        assert s[..1] == [c];
      }
      ReplaceCharSnoc(s[1..], x, c, rep);
    }
  }

  /** A one-character `Replace` rewrites each character on its own. */
  lemma {:induction false} ReplaceCharIsExpand(s: string, c: char, rep: string)
    ensures Replace(s, [c], rep) == ExpandChar(s, c, rep)
    decreases |s|
  {
    if s != [] {
      var init := s[..|s| - 1];
      assert s == init + [s[|s| - 1]];
      ReplaceCharIsExpand(init, c, rep);
      ReplaceCharSnoc(init, s[|s| - 1], c, rep);
    }
  }

  /**
   * A one-character-for-one-character `Replace` is a position-wise swap:
   * the length is kept and only the characters equal to `a` change, to `b`.
   */
  lemma {:induction false} ReplaceCharPointwise(s: string, a: char, b: char)
    ensures |Replace(s, [a], [b])| == |s|
    ensures forall i :: 0 <= i < |s| ==>
      Replace(s, [a], [b])[i] == (if s[i] == a then b else s[i])
    decreases |s|
  {
    if s != [] {
      ReplaceCharPointwise(s[1..], a, b);
      var tail := Replace(s[1..], [a], [b]);
      assert s[..1] == [s[0]];
      assert Replace(s, [a], [b]) == [if s[0] == a then b else s[0]] + tail;
    }
  }

  /** `parts[0] + sep + parts[1] + sep + ... + parts[|parts| - 1]`. */
  function Join(parts: seq<string>, sep: string): string
    requires |parts| >= 1
    decreases |parts|
  {
    if |parts| == 1 then parts[0] else parts[0] + sep + Join(parts[1..], sep)
  }

  lemma JoinCons(x: string, q: seq<string>, sep: string)
    requires |q| >= 1
    ensures Join([x] + q, sep) == x + sep + Join(q, sep)
  {
    assert ([x] + q)[1..] == q;
  }

  /**
   * The texts between the occurrences of `pat` that a left-to-right scan
   * picks: the first part ends where the leftmost occurrence starts, the
   * scan resumes after it, and the last part is what is left once no
   * occurrence remains.
   */
  function Split(s: string, pat: string): (parts: seq<string>)
    requires |pat| > 0
    ensures |parts| >= 1
    decreases |s|
  {
    if |s| < |pat| then [s]
    else if s[..|pat|] == pat then [[]] + Split(s[|pat|..], pat)
    else
      var p := Split(s[1..], pat);
      [[s[0]] + p[0]] + p[1..]
  }

  /**
   * `parts` cut `s` at its leftmost non-overlapping occurrences of `pat`:
   * no occurrence starts inside a part (the `pat` that follows a part may
   * complete one, hence the `pat[..|pat| - 1]`), and the last part holds none.
   */
  predicate LeftmostParts(parts: seq<string>, pat: string)
    requires |pat| > 0
  {
    |parts| >= 1 && !Contains(parts[|parts| - 1], pat) &&
    forall i :: 0 <= i < |parts| - 1 ==> !Contains(parts[i] + pat[..|pat| - 1], pat)
  }

  /** Growing the first part by one character grows the joined text by that character. */
  lemma JoinGrowHead(x: char, p: seq<string>, sep: string)
    requires |p| >= 1
    ensures Join([[x] + p[0]] + p[1..], sep) == [x] + Join(p, sep)
  {
    if |p| > 1 {
      JoinCons([x] + p[0], p[1..], sep);
      assert p == [p[0]] + p[1..];
      JoinCons(p[0], p[1..], sep);
    }
  }

  lemma {:induction false} JoinSplit(s: string, pat: string, sep: string)
    requires |pat| > 0
    ensures Join(Split(s, pat), sep) == Replace(s, pat, sep)
    decreases |s|
  {
    if |s| < |pat| {
    } else if s[..|pat|] == pat {
      var q := Split(s[|pat|..], pat);
      assert Split(s, pat) == [[]] + q;
      assert Replace(s, pat, sep) == sep + Replace(s[|pat|..], pat, sep);
      JoinSplit(s[|pat|..], pat, sep);
      JoinCons([], q, sep);
    } else {
      var p := Split(s[1..], pat);
      assert Split(s, pat) == [[s[0]] + p[0]] + p[1..];
      assert Replace(s, pat, sep) == [s[0]] + Replace(s[1..], pat, sep);
      JoinSplit(s[1..], pat, sep);
      JoinGrowHead(s[0], p, sep);
    }
  }

  /** Replacing `pat` by itself gives the input back. */
  lemma {:induction false} ReplaceSelf(s: string, pat: string)
    requires |pat| > 0
    ensures Replace(s, pat, pat) == s
    decreases |s|
  {
    if |s| < |pat| {
    } else if s[..|pat|] == pat {
      ReplaceSelf(s[|pat|..], pat);
      assert s == s[..|pat|] + s[|pat|..];
    } else {
      ReplaceSelf(s[1..], pat);
      assert s == [s[0]] + s[1..];
    }
  }

  /** Joining the parts back with `pat` gives the text that was split. */
  lemma SplitRejoins(s: string, pat: string)
    requires |pat| > 0
    ensures Join(Split(s, pat), pat) == s
  {
    JoinSplit(s, pat, pat);
    ReplaceSelf(s, pat);
  }

  /** A text that does not start with `pat` contains it only after its first character. */
  lemma NotContainsCons(t: string, pat: string)
    requires |pat| > 0 && |t| > 0
    requires |t| < |pat| || t[..|pat|] != pat
    requires !Contains(t[1..], pat)
    ensures !Contains(t, pat)
  {
  }

  lemma LeftmostPartsCons(h: string, q: seq<string>, pat: string)
    requires |pat| > 0
    requires LeftmostParts(q, pat)
    requires !Contains(h + pat[..|pat| - 1], pat)
    ensures LeftmostParts([h] + q, pat)
  {
    var parts := [h] + q;
    forall i | 0 <= i < |parts| - 1
      ensures !Contains(parts[i] + pat[..|pat| - 1], pat)
    {
      if i > 0 {
        assert parts[i] == q[i - 1];
      }
    }
  }

  /**
   * A prefix `t` of a text `s` that does not start with `pat` contains `pat`
   * only if `t` without its first character does.
   */
  lemma NotContainsInPrefix(t: string, s: string, pat: string)
    requires |pat| > 0 && |t| > 0 && |pat| <= |s| && |t| <= |s|
    requires s[..|t|] == t && s[..|pat|] != pat
    requires !Contains(t[1..], pat)
    ensures !Contains(t, pat)
  {
    if |pat| <= |t| {
      assert t[..|pat|] == s[..|t|][..|pat|];
    }
    NotContainsCons(t, pat);
  }

  lemma LeftmostPartsTail(p: seq<string>, pat: string)
    requires |pat| > 0 && |p| > 1
    requires LeftmostParts(p, pat)
    ensures LeftmostParts(p[1..], pat)
  {
    forall i | 0 <= i < |p[1..]| - 1
      ensures !Contains(p[1..][i] + pat[..|pat| - 1], pat)
    {
      assert p[1..][i] == p[i + 1];
    }
  }

  /** The part that `Split` grows by one character keeps the leftmost property. */
  lemma SplitLeftmostHead(s: string, pat: string)
    requires |pat| > 0 && |s| >= |pat| && s[..|pat|] != pat
    requires LeftmostParts(Split(s[1..], pat), pat)
    ensures LeftmostParts(Split(s, pat), pat)
  {
    var p := Split(s[1..], pat);
    assert Split(s, pat) == [[s[0]] + p[0]] + p[1..];
    SplitRejoins(s[1..], pat);
    if |p| == 1 {
      HeadIsLastPart(s, p, pat);
    } else {
      HeadIsInnerPart(s, p, pat);
    }
  }

  lemma HeadIsLastPart(s: string, p: seq<string>, pat: string)
    requires |pat| > 0 && |s| >= |pat| && s[..|pat|] != pat
    requires |p| == 1 && LeftmostParts(p, pat) && Join(p, pat) == s[1..]
    ensures LeftmostParts([[s[0]] + p[0]] + p[1..], pat)
  {
    assert [s[0]] + p[0] == s;
    assert [[s[0]] + p[0]] + p[1..] == [s];
    NotContainsCons(s, pat);
  }

  /** Where the first part ends the separator starts: the text up to one character before its end. */
  lemma InnerHeadPrefix(s: string, a: string, pat: string, rest: string)
    requires |pat| > 0 && |s| > 0 && s[1..] == a + pat + rest
    ensures |[s[0]] + a + pat[..|pat| - 1]| <= |s|
    ensures s[..|[s[0]] + a + pat[..|pat| - 1]|] == [s[0]] + a + pat[..|pat| - 1]
    ensures ([s[0]] + a + pat[..|pat| - 1])[1..] == a + pat[..|pat| - 1]
  {
    var t := [s[0]] + a + pat[..|pat| - 1];
    assert s == [s[0]] + s[1..];
    forall i | 0 <= i < |t| ensures s[i] == t[i] {
      if i > 0 {
        assert s[i] == s[1..][i - 1];
        if i - 1 < |a| {
          assert s[1..][i - 1] == a[i - 1];
        } else {
          assert s[1..][i - 1] == pat[i - 1 - |a|];
        }
      }
    }
  }

  lemma HeadIsInnerPart(s: string, p: seq<string>, pat: string)
    requires |pat| > 0 && |s| >= |pat| && s[..|pat|] != pat
    requires |p| > 1 && LeftmostParts(p, pat) && Join(p, pat) == s[1..]
    ensures LeftmostParts([[s[0]] + p[0]] + p[1..], pat)
  {
    assert p == [p[0]] + p[1..];
    JoinCons(p[0], p[1..], pat);
    InnerHeadPrefix(s, p[0], pat, Join(p[1..], pat));
    NotContainsInPrefix([s[0]] + p[0] + pat[..|pat| - 1], s, pat);
    LeftmostPartsTail(p, pat);
    LeftmostPartsCons([s[0]] + p[0], p[1..], pat);
  }

  lemma {:induction false} SplitLeftmost(s: string, pat: string)
    requires |pat| > 0
    ensures LeftmostParts(Split(s, pat), pat)
    decreases |s|
  {
    if |s| < |pat| {
    } else if s[..|pat|] == pat {
      SplitLeftmost(s[|pat|..], pat);
      assert !Contains([] + pat[..|pat| - 1], pat);
      LeftmostPartsCons([], Split(s[|pat|..], pat), pat);
    } else {
      SplitLeftmost(s[1..], pat);
      SplitLeftmostHead(s, pat);
    }
  }

  /**
   * What ordinal `Replace` means for a pattern of any length: `s` is `pat`
   * joined between parts that are cut at its leftmost non-overlapping
   * occurrences, and the result joins the same parts with `rep`.
   */
  lemma ReplaceIsLeftmostSplit(s: string, pat: string, rep: string)
    requires |pat| > 0
    ensures exists parts ::
      LeftmostParts(parts, pat) && s == Join(parts, pat) && Replace(s, pat, rep) == Join(parts, rep)
  {
    var parts := Split(s, pat);
    SplitLeftmost(s, pat);
    SplitRejoins(s, pat);
    JoinSplit(s, pat, rep);
    assert LeftmostParts(parts, pat) && s == Join(parts, pat) && Replace(s, pat, rep) == Join(parts, rep);
  }

  // ---------------------------------------------------------------------------
  // String.TrimStart(char), IsNullOrEmpty, IsNullOrWhiteSpace
  // ---------------------------------------------------------------------------

  /** `s.TrimStart(c)`: drop every leading `c`. */
  function TrimStart(s: string, c: char): (r: string)
    ensures |r| <= |s| && r == s[|s| - |r|..]
    ensures forall i :: 0 <= i < |s| - |r| ==> s[i] == c
    ensures r == [] || r[0] != c
    decreases |s|
  {
    if s != [] && s[0] == c then TrimStart(s[1..], c) else s
  }

  /** `string.IsNullOrEmpty(s)` for a nullable string. */
  predicate IsNullOrEmpty(s: Option<string>) {
    s.None? || s.value == ""
  }

  /** .NET `char.IsWhiteSpace`: the Unicode separators plus the five C0 controls TAB..CR and U+0085. */
  predicate IsWhiteSpace(c: char) {
    var k := c as int;
    (0x09 <= k <= 0x0D) || k == 0x20 || k == 0x85 || k == 0xA0 || k == 0x1680
    || (0x2000 <= k <= 0x200A) || k == 0x2028 || k == 0x2029 || k == 0x202F
    || k == 0x205F || k == 0x3000
  }

  /** `string.IsNullOrWhiteSpace(s)` for a nullable string: absent, empty, or white space only. */
  predicate IsNullOrWhiteSpace(s: Option<string>) {
    s.None? || forall i :: 0 <= i < |s.value| ==> IsWhiteSpace(s.value[i])
  }

  // ---------------------------------------------------------------------------
  // Decimal ToString() of uint / int
  // ---------------------------------------------------------------------------

  predicate IsDigit(c: char) { '0' <= c <= '9' }

  function DigitChar(d: nat): (c: char)
    requires d < 10
    ensures IsDigit(c) && DigitValue(c) == d
  {
    "0123456789"[d]
  }

  function DigitValue(c: char): (d: nat)
    requires IsDigit(c)
    ensures d < 10
  {
    (c as int) - ('0' as int)
  }

  /** Decimal digits of `n`, most significant first, with no leading zero (`NatToDecimal(0) == "0"`). */
  function NatToDecimal(n: nat): (r: string)
    ensures |r| >= 1
    ensures forall i :: 0 <= i < |r| ==> IsDigit(r[i])
    ensures |r| > 1 ==> r[0] != '0'
    ensures n > 0 ==> r[0] != '0'
    decreases n
  {
    if n < 10 then [DigitChar(n)] else NatToDecimal(n / 10) + [DigitChar(n % 10)]
  }

  /** The number a string of decimal digits denotes. */
  function DecimalValue(s: string): nat
    requires forall i :: 0 <= i < |s| ==> IsDigit(s[i])
    decreases |s|
  {
    if s == [] then 0 else DecimalValue(s[..|s| - 1]) * 10 + DigitValue(s[|s| - 1])
  }

  /** Reading back the decimal text of `n` gives `n`. */
  lemma {:induction false} DecimalRoundTrip(n: nat)
    ensures DecimalValue(NatToDecimal(n)) == n
    decreases n
  {
    var r := NatToDecimal(n);
    if n < 10 {
      assert r[..0] == [];
    } else {
      DecimalRoundTrip(n / 10);
      assert r[..|r| - 1] == NatToDecimal(n / 10);
    }
  }

  /**
   * `int.ToString()`, which writes the current culture's negative sign before
   * the digits of a negative number; the model takes that sign to be `-`.
   */
  function IntToDecimal(i: int): (r: string)
    ensures |r| >= 1
    ensures (r[0] == '-') <==> i < 0
    ensures r[0] == '-' || IsDigit(r[0])
    ensures forall k :: 1 <= k < |r| ==> IsDigit(r[k])
    ensures r[0] == '-' ==> |r| >= 2 && r[1] != '0'
    ensures r[0] != '-' && |r| > 1 ==> r[0] != '0'
  {
    if i < 0 then "-" + NatToDecimal(-i) else NatToDecimal(i)
  }

  /** The text of `IntToDecimal(i)` reads back as `i`: a sign iff negative, then the digits of `|i|`. */
  lemma DecimalIntRoundTrip(i: int)
    ensures var r := IntToDecimal(i);
            var digits := if r[0] == '-' then r[1..] else r;
            (forall k :: 0 <= k < |digits| ==> IsDigit(digits[k]))
            && DecimalValue(digits) as int == (if r[0] == '-' then -i else i)
  {
    var r := IntToDecimal(i);
    var m: nat := if i < 0 then -i else i;
    var d := NatToDecimal(m);
    DecimalRoundTrip(m);
    assert IsDigit(d[0]);
    if i < 0 {
      assert r == "-" + d;
      assert r[0] == '-' && r[1..] == d;
    } else {
      assert r == d && r[0] != '-';
    }
  }

  // ---------------------------------------------------------------------------
  // Convert.ToInt32(s, 16)
  // ---------------------------------------------------------------------------

  const TwoTo31: int := 0x8000_0000
  const TwoTo32: int := 0x1_0000_0000

  predicate IsHexDigit(c: char) {
    ('0' <= c <= '9') || ('a' <= c <= 'f') || ('A' <= c <= 'F')
  }

  function HexDigitValue(c: char): (d: nat)
    requires IsHexDigit(c)
    ensures d < 16
  {
    if '0' <= c <= '9' then (c as int) - ('0' as int)
    else if 'a' <= c <= 'f' then (c as int) - ('a' as int) + 10
    else (c as int) - ('A' as int) + 10
  }

  function HexValue(s: string): nat
    requires forall i :: 0 <= i < |s| ==> IsHexDigit(s[i])
    decreases |s|
  {
    if s == [] then 0 else HexValue(s[..|s| - 1]) * 16 + HexDigitValue(s[|s| - 1])
  }

  /** The 32 bits of `v` read as a signed two's-complement `int`. */
  function AsInt32(v: nat): (r: int)
    requires v < TwoTo32
    ensures -TwoTo31 <= r < TwoTo31
    ensures (r + TwoTo32) % TwoTo32 == v
  {
    if v < TwoTo31 then v else v - TwoTo32
  }

  /**
   * `Convert.ToInt32(s, 16)` on a string of plain hexadecimal digits, either
   * case, any number of leading zeros: `None` stands for the exception the
   * library throws on an empty string, a non-hex character, or a value of
   * more than 32 bits. The value is the digits' number taken modulo 2^32
   * as a signed 32-bit integer, so the top bit set makes it negative. The
   * library also accepts a `0x`/`0X` prefix and a leading `+`; those are
   * rejected here.
   */
  function ParseHex32(s: string): (r: Option<int>)
    ensures r.Some? <==> |s| > 0 && (forall i :: 0 <= i < |s| ==> IsHexDigit(s[i])) && HexValue(s) < TwoTo32
    ensures r.Some? ==> -TwoTo31 <= r.value < TwoTo31
    ensures r.Some? ==> (r.value + TwoTo32) % TwoTo32 == HexValue(s)
    ensures r.Some? ==> (r.value < 0 <==> HexValue(s) >= TwoTo31)
  {
    if |s| > 0 && (forall i :: 0 <= i < |s| ==> IsHexDigit(s[i])) && HexValue(s) < TwoTo32
    then Some(AsInt32(HexValue(s)))
    else None
  }

  /** Lower-case hexadecimal digits of `n`, most significant first. */
  function NatToHex(n: nat): (r: string)
    ensures |r| >= 1
    ensures forall i :: 0 <= i < |r| ==> IsHexDigit(r[i])
    decreases n
  {
    if n < 16 then ["0123456789abcdef"[n]] else NatToHex(n / 16) + ["0123456789abcdef"[n % 16]]
  }

  lemma {:induction false} HexValueOfNatToHex(n: nat)
    ensures HexValue(NatToHex(n)) == n
    decreases n
  {
    var r := NatToHex(n);
    if n < 16 {
      assert r[..0] == [];
    } else {
      HexValueOfNatToHex(n / 16);
      assert r[..|r| - 1] == NatToHex(n / 16);
    }
  }

  lemma {:induction false} HexValueLeadingZero(s: string)
    requires forall i :: 0 <= i < |s| ==> IsHexDigit(s[i])
    ensures forall i :: 0 <= i < |"0" + s| ==> IsHexDigit(("0" + s)[i])
    ensures HexValue("0" + s) == HexValue(s)
    decreases |s|
  {
    var z := "0" + s;
    assert forall i :: 0 <= i < |z| ==> IsHexDigit(z[i]) by {
      forall i | 0 <= i < |z| ensures IsHexDigit(z[i]) {
        if i > 0 { assert z[i] == s[i - 1]; }
      }
    }
    if s == [] {
      assert z[..|z| - 1] == [];
    } else {
      var init := s[..|s| - 1];
      HexValueLeadingZero(init);
      assert z[..|z| - 1] == "0" + init;
      assert z[|z| - 1] == s[|s| - 1];
    }
  }

  /**
   * A leading zero digit does not change `ParseHex32`: a string of hex digits
   * keeps its value and any other string stays rejected.
   */
  lemma ParseHex32LeadingZero(s: string)
    requires |s| > 0
    ensures ParseHex32("0" + s) == ParseHex32(s)
  {
    if forall i :: 0 <= i < |s| ==> IsHexDigit(s[i]) {
      HexValueLeadingZero(s);
    } else {
      var k :| 0 <= k < |s| && !IsHexDigit(s[k]);
      assert ("0" + s)[k + 1] == s[k];
    }
  }

  /** Every 32-bit colour written in hex parses back to its signed 32-bit value. */
  lemma HexRoundTrip(n: nat)
    requires n < TwoTo32
    ensures ParseHex32(NatToHex(n)) == Some(AsInt32(n))
  {
    HexValueOfNatToHex(n);
  }
}
