/** The Python string operations the pipeline relies on: `str(int)`,
    `str.zfill`, `str.upper`, `str.replace` with a literal pattern, the
    anchored regular expression `\.0$`, and the decimal reader behind
    `pd.to_numeric`. Strings are sequences of characters; only the ASCII
    behaviour of case mapping is modelled. */
module Text {
  import opened Outcomes

  predicate IsDigit(c: char)
  {
    '0' <= c <= '9'
  }

  predicate IsDigits(s: string)
  {
    forall i :: 0 <= i < |s| ==> IsDigit(s[i])
  }

  function Zeros(n: nat): (r: string)
    ensures |r| == n
    ensures forall i :: 0 <= i < n ==> r[i] == '0'
  {
    seq(n, _ => '0')
  }

  predicate IsSign(c: char)
  {
    c == '+' || c == '-'
  }

  /** Python's `s.zfill(width)`: left-pads with '0' up to `width`; a leading
      sign stays in front of the padding; a no-op once `|s| >= width`. */
  function ZFill(s: string, width: nat): (r: string)
    ensures |r| == if |s| >= width then |s| else width
    ensures |s| >= width ==> r == s
    ensures |s| < width && |s| > 0 && IsSign(s[0]) ==>
              r == [s[0]] + Zeros(width - |s|) + s[1..]
    ensures |s| < width && (|s| == 0 || !IsSign(s[0])) ==>
              r == Zeros(width - |s|) + s
  {
    if |s| >= width then s
    else if |s| > 0 && IsSign(s[0]) then [s[0]] + Zeros(width - |s|) + s[1..]
    else Zeros(width - |s|) + s
  }

  /** zfill never changes its result a second time. */
  lemma ZFillIdempotent(s: string, width: nat)
    ensures ZFill(ZFill(s, width), width) == ZFill(s, width)
  {
  }

  /** The numeric value of a string of decimal digits. */
  function DigitsValue(s: string): nat
    requires IsDigits(s)
  {
    if s == [] then 0
    else DigitsValue(s[..|s| - 1]) * 10 + (s[|s| - 1] as int - '0' as int)
  }

  /** Leading zeros do not change the value of a digit string. */
  lemma {:induction false} LeadingZerosValue(n: nat, s: string)
    requires IsDigits(s)
    ensures IsDigits(Zeros(n) + s)
    ensures DigitsValue(Zeros(n) + s) == DigitsValue(s)
  {
    if s == [] {
      assert Zeros(n) + s == Zeros(n);
      ZerosValue(n);
    } else {
      var t := Zeros(n) + s;
      assert t[..|t| - 1] == Zeros(n) + s[..|s| - 1];
      LeadingZerosValue(n, s[..|s| - 1]);
    }
  }

  lemma {:induction false} ZerosValue(n: nat)
    ensures DigitsValue(Zeros(n)) == 0
  {
    if n > 0 {
      assert Zeros(n)[..n - 1] == Zeros(n - 1);
      ZerosValue(n - 1);
    }
  }

  /** Zero-padding a digit string yields a digit string denoting the same
      number, so the padded key still names the same municipality code. */
  lemma ZFillPreservesValue(s: string, width: nat)
    requires IsDigits(s)
    ensures IsDigits(ZFill(s, width))
    ensures DigitsValue(ZFill(s, width)) == DigitsValue(s)
  {
    if |s| < width {
      LeadingZerosValue(width - |s|, s);
    }
  }

  function DigitChar(d: nat): char
    requires d < 10
  {
    ['0', '1', '2', '3', '4', '5', '6', '7', '8', '9'][d]
  }

  /** Python's `str(n)` for a natural number. */
  function NatText(n: nat): (r: string)
    ensures |r| >= 1
    ensures IsDigits(r)
  {
    if n < 10 then [DigitChar(n)] else NatText(n / 10) + [DigitChar(n % 10)]
  }

  /** Python's `str(i)` for an integer: a '-' sign before the digits of a
      negative number. */
  function IntText(i: int): (r: string)
    ensures |r| >= 1
    ensures i >= 0 ==> IsDigits(r)
    ensures i < 0 ==> r[0] == '-' && IsDigits(r[1..])
  {
    if i < 0 then "-" + NatText(-i) else NatText(i)
  }

  /** Reading back the digits of `str(n)` gives `n`. */
  lemma {:induction false} NatTextValue(n: nat)
    ensures DigitsValue(NatText(n)) == n
  {
    var t := NatText(n);
    if n >= 10 {
      assert t[..|t| - 1] == NatText(n / 10);
      NatTextValue(n / 10);
    }
  }

  /** `str(n)` has more than `k` digits exactly when `n >= 10^k`. */
  lemma {:induction false} NatTextLength(n: nat, k: nat)
    requires k > 0
    ensures |NatText(n)| > k <==> n >= Pow10(k)
  {
    if n >= 10 {
      if k > 1 {
        NatTextLength(n / 10, k - 1);
        assert n / 10 >= Pow10(k - 1) <==> n >= Pow10(k);
      }
    } else {
      assert Pow10(k) >= 10;
    }
  }

  function Pow10(k: nat): (r: nat)
    ensures r >= 1
  {
    if k == 0 then 1 else 10 * Pow10(k - 1)
  }

  predicate EndsWith(s: string, suffix: string)
  {
    |suffix| <= |s| && s[|s| - |suffix|..] == suffix
  }

  /** `re.sub(r'\.0$', '', s)`: Python's `$` matches at the very end and
      just before a final newline, so at most one ".0" is removed. */
  function StripAnchoredDotZero(s: string): (r: string)
    ensures EndsWith(s, ".0") ==> r + ".0" == s
    ensures !EndsWith(s, ".0") && EndsWith(s, ".0\n") ==> r == s[..|s| - 3] + "\n"
    ensures !EndsWith(s, ".0") && !EndsWith(s, ".0\n") ==> r == s
  {
    if EndsWith(s, ".0") then s[..|s| - 2]
    else if EndsWith(s, ".0\n") then s[..|s| - 3] + "\n"
    else s
  }

  /** `pat` occurs in `s` starting at index `i`. */
  predicate OccursAt(s: string, pat: string, i: nat)
  {
    i + |pat| <= |s| && s[i..i + |pat|] == pat
  }

  /** Python's `pat in s`. */
  predicate Contains(s: string, pat: string)
  {
    exists i: nat :: i < |s| && OccursAt(s, pat, i)
  }

  /** Python's `s.replace(pat, rep)` for a non-empty literal pattern:
      occurrences are found left to right and do not overlap. */
  function ReplaceAll(s: string, pat: string, rep: string): string
    requires |pat| > 0
  {
    if |s| < |pat| then s
    else if s[..|pat|] == pat then rep + ReplaceAll(s[|pat|..], pat, rep)
    else [s[0]] + ReplaceAll(s[1..], pat, rep)
  }

  /** Without an occurrence of the pattern the string is unchanged. */
  lemma {:induction false} ReplaceAllAbsent(s: string, pat: string, rep: string)
    requires |pat| > 0
    requires forall i: nat :: !OccursAt(s, pat, i)
    ensures ReplaceAll(s, pat, rep) == s
  {
    if |s| >= |pat| {
      assert !OccursAt(s, pat, 0);
      forall i: nat
        ensures !OccursAt(s[1..], pat, i)
      {
        assert !OccursAt(s, pat, i + 1);
        if i + |pat| <= |s[1..]| {
          assert s[1..][i..i + |pat|] == s[i + 1..i + 1 + |pat|];
        }
      }
      ReplaceAllAbsent(s[1..], pat, rep);
    }
  }

  /** No occurrence of `pat` starts inside `s`, not even one that runs on
      into a `pat` placed after `s`. "./dados" and "dados.v2" qualify
      before ".csv". */
  predicate NoOccurrenceBefore(s: string, pat: string)
  {
    forall i: nat :: i < |s| ==> !OccursAt(s + pat, pat, i)
  }

  /** Text free of the pattern's first character has no occurrence
      starting in it. */
  lemma FirstCharAbsent(s: string, pat: string)
    requires |pat| > 0 && pat[0] !in s
    ensures NoOccurrenceBefore(s, pat)
  {
    forall i: nat | i < |s|
      ensures !OccursAt(s + pat, pat, i)
    {
      assert (s + pat)[i] == s[i];
    }
  }

  /** When no occurrence starts before a trailing occurrence, exactly that
      occurrence is replaced: "dados.csv", "./dados.csv" and "dados.v2.csv"
      all get the suffix before their extension. */
  lemma ReplaceAllTrailing(s: string, pat: string, rep: string)
    requires |pat| > 0
    requires NoOccurrenceBefore(s, pat)
    ensures ReplaceAll(s + pat, pat, rep) == s + rep
  {
    ReplaceAllFirst(s, pat, rep, []);
    assert s + pat + [] == s + pat;
    assert ReplaceAll([], pat, rep) == [];
    assert s + rep + [] == s + rep;
  }

  /** An occurrence with no occurrence starting before it is the first one
      found, and the scan resumes right after it. */
  lemma {:induction false} ReplaceAllFirst(s: string, pat: string, rep: string, rest: string)
    requires |pat| > 0
    requires NoOccurrenceBefore(s, pat)
    ensures ReplaceAll(s + pat + rest, pat, rep) == s + rep + ReplaceAll(rest, pat, rep)
  {
    var t := s + pat + rest;
    if s == [] {
      assert t == pat + rest;
      assert t[..|pat|] == pat && t[|pat|..] == rest;
      assert ReplaceAll(t, pat, rep) == rep + ReplaceAll(rest, pat, rep);
    } else {
      assert !OccursAt(s + pat, pat, 0);
      assert t[..|pat|] == (s + pat)[0..|pat|];
      assert t[..|pat|] != pat;
      assert t[1..] == s[1..] + pat + rest;
      assert ReplaceAll(t, pat, rep) == [t[0]] + ReplaceAll(t[1..], pat, rep);
      forall i: nat | i < |s[1..]|
        ensures !OccursAt(s[1..] + pat, pat, i)
      {
        assert !OccursAt(s + pat, pat, i + 1);
        assert (s[1..] + pat)[i..i + |pat|] == (s + pat)[i + 1..i + 1 + |pat|];
      }
      ReplaceAllFirst(s[1..], pat, rep, rest);
      assert [s[0]] + (s[1..] + rep + ReplaceAll(rest, pat, rep)) == s + rep + ReplaceAll(rest, pat, rep);
    }
  }

  /** Python's `sep.join(parts)`. */
  function Join(parts: seq<string>, sep: string): string
  {
    if |parts| == 0 then ""
    else if |parts| == 1 then parts[0]
    else parts[0] + sep + Join(parts[1..], sep)
  }

  /** `s.replace(pat, rep)` rewrites every occurrence: a text made of parts
      separated by `pat`, where no other occurrence is found first, comes
      back as the same parts separated by `rep`. */
  lemma {:induction false} ReplaceAllJoin(parts: seq<string>, pat: string, rep: string)
    requires |pat| > 0 && |parts| > 0
    requires forall k :: 0 <= k < |parts| - 1 ==> NoOccurrenceBefore(parts[k], pat)
    requires !Contains(parts[|parts| - 1], pat)
    ensures ReplaceAll(Join(parts, pat), pat, rep) == Join(parts, rep)
  {
    if |parts| == 1 {
      ReplaceAllAbsent(parts[0], pat, rep);
    } else {
      var tail := parts[1..];
      assert tail[|tail| - 1] == parts[|parts| - 1];
      assert forall k :: 0 <= k < |tail| - 1 ==> tail[k] == parts[k + 1];
      ReplaceAllJoin(tail, pat, rep);
      assert NoOccurrenceBefore(parts[0], pat);
      ReplaceAllFirst(parts[0], pat, rep, Join(tail, pat));
    }
  }

  predicate IsLower(c: char)
  {
    'a' <= c <= 'z'
  }

  function UpperChar(c: char): (u: char)
    ensures !IsLower(u)
  {
    if IsLower(c) then (c as int - 32) as char else c
  }

  /** Python's `str.upper()` on ASCII letters: 'a'..'z' become 'A'..'Z'
      and every other character is kept. */
  function Upper(s: string): (r: string)
    ensures |r| == |s|
    ensures forall i :: 0 <= i < |r| ==> !IsLower(r[i])
    ensures forall i :: 0 <= i < |s| && IsLower(s[i]) ==> r[i] == (s[i] as int - 32) as char && 'A' <= r[i] <= 'Z'
    ensures forall i :: 0 <= i < |s| && !IsLower(s[i]) ==> r[i] == s[i]
  {
    seq(|s|, i requires 0 <= i < |s| => UpperChar(s[i]))
  }

  /** Upper-casing is idempotent. */
  lemma UpperIdempotent(s: string)
    ensures Upper(Upper(s)) == Upper(s)
  {
  }

  /** A finite decimal `mantissa / 10^scale`, the value a numeric cell holds. */
  datatype Decimal = Decimal(mantissa: int, scale: nat)
  {
    function Value(): real
    {
      mantissa as real / Pow10(scale) as real
    }
  }

  /** Index of the first occurrence of `c`, or |s| when absent. */
  function FirstIndex(s: string, c: char): (k: nat)
    ensures k <= |s|
    ensures c !in s[..k]
    ensures k < |s| ==> s[k] == c
  {
    if s == [] then 0
    else if s[0] == c then 0
    else 1 + FirstIndex(s[1..], c)
  }

  /** The decimal reading `pd.to_numeric` applies to a text cell: an optional
      sign, digits, an optional '.' and more digits, at least one digit in
      all. Anything else, including the placeholder "--", is unparsable. */
  function ParseDecimal(s: string): (r: Option<Decimal>)
    ensures r.Some? ==> |s| > 0 && (IsDigit(s[0]) || IsSign(s[0]) || s[0] == '.')
    ensures r.Some? && !IsSign(s[0]) ==> r.value.mantissa >= 0
    ensures r.Some? && s[0] == '-' ==> r.value.mantissa <= 0
  {
    var negative := |s| > 0 && s[0] == '-';
    var body := if |s| > 0 && IsSign(s[0]) then s[1..] else s;
    match ParseUnsigned(body)
    case None => None
    case Some(d) => Some(if negative then Decimal(-d.mantissa, d.scale) else d)
  }

  /** The unsigned part: digits, an optional '.' and more digits. */
  function ParseUnsigned(body: string): (r: Option<Decimal>)
    ensures r.Some? ==> |body| > 0 && (IsDigit(body[0]) || body[0] == '.') && r.value.mantissa >= 0
  {
    var dot := FirstIndex(body, '.');
    var whole := body[..dot];
    var frac := if dot < |body| then body[dot + 1..] else "";
    if IsDigits(whole) && IsDigits(frac) && |whole| + |frac| > 0 then
      if |whole| > 0 then
        assert body[0] == whole[0];
        Some(Decimal(DigitsValue(whole + frac), |frac|))
      else
        Some(Decimal(DigitsValue(whole + frac), |frac|))
    else None
  }

  /** The placeholder the education spreadsheets use for a suppressed rate
      does not parse. */
  lemma PlaceholderUnparsable()
    ensures ParseDecimal("--").None?
  {
    assert !IsDigits("-");
  }

  /** The '.' of a fixed-point text is the first one. */
  lemma DotAfterWhole(whole: string, frac: string)
    requires IsDigits(whole)
    ensures FirstIndex(whole + "." + frac, '.') == |whole|
  {
    var t := whole + "." + frac;
    var k := FirstIndex(t, '.');
    assert t[|whole|] == '.';
  }

  /** A text without '.' has none to find. */
  lemma NoDotInDigits(whole: string)
    requires IsDigits(whole)
    ensures FirstIndex(whole, '.') == |whole|
  {
  }

  /** The signed magnitude a sign prefix selects. */
  function Signed(sign: string, magnitude: nat): int
  {
    if sign == "-" then -(magnitude as int) else magnitude
  }

  /** An optional sign, digits, '.', digits, with at least one digit, reads
      as the digits taken together over ten to the number of fractional
      digits: "95.3" reads as 953/10 and "-.5" as -5/10. */
  lemma ParsesFixedPoint(sign: string, whole: string, frac: string)
    requires sign == "" || sign == "+" || sign == "-"
    requires IsDigits(whole) && IsDigits(frac) && |whole| + |frac| > 0
    ensures ParseDecimal(sign + (whole + "." + frac)) ==
              Some(Decimal(Signed(sign, DigitsValue(whole + frac)), |frac|))
  {
    var body := whole + "." + frac;
    UnsignedFixedPoint(whole, frac);
    SignPrefix(sign, body);
  }

  lemma UnsignedFixedPoint(whole: string, frac: string)
    requires IsDigits(whole) && IsDigits(frac) && |whole| + |frac| > 0
    ensures ParseUnsigned(whole + "." + frac) == Some(Decimal(DigitsValue(whole + frac), |frac|))
  {
    var body := whole + "." + frac;
    DotAfterWhole(whole, frac);
    assert body[..|whole|] == whole;
    assert body[|whole| + 1..] == frac;
  }

  /** A sign prefix in front of an unsigned text that starts with a digit
      or '.' negates for '-' and changes nothing for '+' or no sign. */
  lemma SignPrefix(sign: string, body: string)
    requires sign == "" || sign == "+" || sign == "-"
    requires ParseUnsigned(body).Some?
    ensures ParseDecimal(sign + body) ==
              Some(Decimal(Signed(sign, ParseUnsigned(body).value.mantissa), ParseUnsigned(body).value.scale))
  {
    var s := sign + body;
    if sign == "" {
      assert s == body;
    } else {
      assert s[0] == sign[0] && s[1..] == body;
    }
  }

  /** An optional sign followed by digits reads as that whole number. */
  lemma ParsesInteger(sign: string, whole: string)
    requires sign == "" || sign == "+" || sign == "-"
    requires IsDigits(whole) && |whole| > 0
    ensures ParseDecimal(sign + whole) == Some(Decimal(Signed(sign, DigitsValue(whole)), 0))
  {
    NoDotInDigits(whole);
    assert whole[..|whole|] == whole;
    assert whole + "" == whole;
    assert ParseUnsigned(whole) == Some(Decimal(DigitsValue(whole), 0));
    SignPrefix(sign, whole);
  }

  /** Conversely, every text that parses is an optional sign, digits and
      an optional '.' with more digits, and reads as ParsesFixedPoint and
      ParsesInteger say. */
  lemma ParsedParts(s: string) returns (sign: string, whole: string, frac: string, dotted: bool)
    requires ParseDecimal(s).Some?
    ensures sign == "" || sign == "+" || sign == "-"
    ensures IsDigits(whole) && IsDigits(frac) && |whole| + |frac| > 0
    ensures dotted ==> s == sign + (whole + "." + frac)
    ensures !dotted ==> s == sign + whole && frac == ""
    ensures ParseDecimal(s) == Some(Decimal(Signed(sign, DigitsValue(whole + frac)), |frac|))
  {
    sign := if IsSign(s[0]) then [s[0]] else "";
    var body := s[|sign|..];
    assert s == sign + body;
    assert ParseUnsigned(body).Some?;
    whole, frac, dotted := UnsignedParts(body);
    if dotted {
      ParsesFixedPoint(sign, whole, frac);
    } else {
      ParsesInteger(sign, whole);
      assert whole + frac == whole;
    }
  }

  lemma UnsignedParts(body: string) returns (whole: string, frac: string, dotted: bool)
    requires ParseUnsigned(body).Some?
    ensures IsDigits(whole) && IsDigits(frac) && |whole| + |frac| > 0
    ensures dotted ==> body == whole + "." + frac
    ensures !dotted ==> body == whole && frac == ""
  {
    var dot := FirstIndex(body, '.');
    whole := body[..dot];
    frac := if dot < |body| then body[dot + 1..] else "";
    dotted := dot < |body|;
    if dotted {
      assert body == whole + "." + frac;
    } else {
      assert body == whole;
    }
  }

  /** `str(i)` read back as a decimal is `i`. */
  lemma IntTextParses(i: int)
    ensures ParseDecimal(IntText(i)) == Some(Decimal(i, 0))
  {
    var m: nat := if i < 0 then -i else i;
    var sign := if i < 0 then "-" else "";
    var w := NatText(m);
    assert IntText(i) == sign + w;
    ParsesInteger(sign, w);
    NatTextValue(m);
    assert Signed(sign, m) == i;
  }
}
