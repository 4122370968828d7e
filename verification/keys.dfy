/** The three municipality-key normalisers the scripts apply before joining
    on `ID_MUNICIPIO`. IBGE municipality codes have seven digits; each
    variant pads to that width but they disagree on how a ".0" left by a
    float column is removed. */
module MunicipalityKeys {
  import opened Text
  import opened Cells

  const KeyWidth: nat := 7

  /** create_education_data.py: `astype(str)`, drop one anchored trailing
      ".0", then `zfill(7)`. */
  function EducationKey(c: Cell): (k: string)
    ensures |k| >= KeyWidth
    ensures IsDigits(AsStr(c)) ==> IsDigits(k) && DigitsValue(k) == DigitsValue(AsStr(c))
  {
    var text := StripAnchoredDotZero(AsStr(c));
    assert IsDigits(AsStr(c)) ==> IsDigits(ZFill(text, KeyWidth)) && DigitsValue(ZFill(text, KeyWidth)) == DigitsValue(AsStr(c)) by {
      if IsDigits(AsStr(c)) {
        assert !EndsWith(AsStr(c), ".0") by { var t := AsStr(c); if |t| >= 2 { assert IsDigit(t[|t| - 2]); } }
        assert !EndsWith(AsStr(c), ".0\n") by { var t := AsStr(c); if |t| >= 3 { assert IsDigit(t[|t| - 1]); } }
        ZFillPreservesValue(text, KeyWidth);
      }
    }
    ZFill(text, KeyWidth)
  }

  /** tx_rend.py: `.str.replace('.0', '')` removes every literal ".0", then
      `.str.zfill(7)`. The `.str` methods turn a non-string cell into a
      missing one. */
  function InepKey(c: Cell): (k: Cell)
    ensures c.Str? <==> k.Str?
    ensures k.Str? ==> |k.s| >= KeyWidth
    ensures c.Str? && (forall i: nat :: !OccursAt(c.s, ".0", i)) ==> k == Str(ZFill(c.s, KeyWidth))
  {
    match c
    case Str(s) =>
      assert (forall i: nat :: !OccursAt(s, ".0", i)) ==> ReplaceAll(s, ".0", "") == s by {
        if forall i: nat :: !OccursAt(s, ".0", i) {
          ReplaceAllAbsent(s, ".0", "");
        }
      }
      Str(ZFill(ReplaceAll(s, ".0", ""), KeyWidth))
    case _ => Missing
  }

  /** merge_data.py and eleicoes.py (election side) and tx_rend.py's CSV
      conversion: `astype(str)` then `zfill(7)`, with no ".0" removal. */
  function PaddedKey(c: Cell): (k: string)
    ensures |k| >= KeyWidth
    ensures |AsStr(c)| >= KeyWidth ==> k == AsStr(c)
    ensures IsDigits(AsStr(c)) ==> IsDigits(k) && DigitsValue(k) == DigitsValue(AsStr(c))
  {
    assert IsDigits(AsStr(c)) ==> IsDigits(ZFill(AsStr(c), KeyWidth)) && DigitsValue(ZFill(AsStr(c), KeyWidth)) == DigitsValue(AsStr(c)) by {
      if IsDigits(AsStr(c)) {
        ZFillPreservesValue(AsStr(c), KeyWidth);
      }
    }
    ZFill(AsStr(c), KeyWidth)
  }

  /** An integer code is padded to a seven-digit key denoting the same code. */
  lemma EducationKeyOfCode(i: nat)
    ensures IsDigits(EducationKey(Int(i)))
    ensures DigitsValue(EducationKey(Int(i))) == i
    ensures |EducationKey(Int(i))| == if i >= Pow10(KeyWidth) then |IntText(i)| else KeyWidth
  {
    NatTextValue(i);
    NatTextLength(i, KeyWidth);
  }

  /** A code read from a float column (e.g. 2304400.0) gets the same key as
      the same code read from an integer column. */
  lemma EducationKeyOfWholeFloat(i: int, e: nat)
    ensures EducationKey(Float(Decimal(i * Pow10(e), e))) == EducationKey(Int(i))
  {
    WholeFloatText(i, e);
    var t := IntText(i) + ".0";
    assert EndsWith(t, ".0");
    assert t[..|t| - 2] == IntText(i);
    assert StripAnchoredDotZero(t) == IntText(i);
    var u := IntText(i);
    assert IsDigit(u[|u| - 1]);
    assert |u| >= 2 ==> u[|u| - 2] == '-' || IsDigit(u[|u| - 2]);
    NoDotZeroSuffix(u);
  }

  /** A text that ends neither in a newline nor in '.' plus one character
      is left alone by the anchored removal. */
  lemma NoDotZeroSuffix(t: string)
    requires |t| >= 1 && t[|t| - 1] != '\n'
    requires |t| < 2 || t[|t| - 2] != '.'
    ensures StripAnchoredDotZero(t) == t
  {
    assert !EndsWith(t, ".0") by { if |t| >= 2 { assert t[|t| - 2..][0] == t[|t| - 2]; } }
    assert !EndsWith(t, ".0\n") by { if |t| >= 3 { assert t[|t| - 3..][2] == t[|t| - 1]; } }
  }

  /** 1234 becomes "0001234". */
  lemma EducationKeyPadsShortCode()
    ensures EducationKey(Int(1234)) == "0001234"
  {
    ShortCodeText();
    NoDotZeroSuffix("1234");
    assert Zeros(3) + "1234" == "0001234";
  }

  lemma ShortCodeText()
    ensures IntText(1234) == "1234"
  {
    assert NatText(1) == "1";
    assert NatText(12) == "12";
    assert NatText(123) == "123";
  }

  /** "2304400.0" becomes "2304400". */
  lemma EducationKeyStripsFloatSuffix()
    ensures EducationKey(Str("2304400.0")) == "2304400"
  {
    var t := "2304400.0";
    assert EndsWith(t, ".0");
    assert t[..|t| - 2] == "2304400";
    assert StripAnchoredDotZero(t) == "2304400";
  }

  /** Normalising a normalised digit code changes nothing, with or without a
      ".0" suffix on the original. */
  lemma EducationKeyIdempotentOnCodes(d: string, suffixed: bool)
    requires IsDigits(d)
    ensures var c := Str(if suffixed then d + ".0" else d);
            EducationKey(Str(EducationKey(c))) == EducationKey(c)
  {
    var s := if suffixed then d + ".0" else d;
    if suffixed {
      assert EndsWith(s, ".0") && s[..|s| - 2] == d;
    } else {
      assert !EndsWith(s, ".0") by { if |s| >= 2 { assert IsDigit(s[|s| - 2]); } }
      assert !EndsWith(s, ".0\n") by { if |s| >= 3 { assert IsDigit(s[|s| - 1]); } }
    }
    var k := ZFill(d, KeyWidth);
    ZFillPreservesValue(d, KeyWidth);
    assert !EndsWith(k, ".0") by { assert IsDigit(k[|k| - 2]); }
    assert !EndsWith(k, ".0\n") by { assert IsDigit(k[|k| - 1]); }
  }

  /** The anchored removal takes exactly one trailing ".0". */
  lemma StripDotZeroSuffix(d: string)
    ensures StripAnchoredDotZero(d + ".0") == d
  {
    var t := d + ".0";
    assert t[|t| - 2..] == ".0";
    assert t[..|t| - 2] == d;
  }

  /** In general the normaliser is not idempotent: "1.0.0" loses one ".0"
      per application. */
  lemma EducationKeyNotIdempotent()
    ensures EducationKey(Str("1.0.0")) == "00001.0"
    ensures EducationKey(Str("00001.0")) == "0000001"
  {
    StripDotZeroSuffix("1.0");
    assert "1.0" + ".0" == "1.0.0";
    assert Zeros(4) + "1.0" == "00001.0";
    StripDotZeroSuffix("00001");
    assert "00001" + ".0" == "00001.0";
    assert Zeros(2) + "00001" == "0000001";
  }

  /** The tx_rend variant removes a ".0" anywhere: "1.05" becomes "0000015". */
  lemma InepKeyRemovesInnerDotZero()
    ensures InepKey(Str("1.05")) == Str("0000015")
  {
    assert ReplaceAll("5", ".0", "") == "5";
    assert ".05"[..2] == ".0" && ".05"[2..] == "5";
    assert ReplaceAll(".05", ".0", "") == "5";
    assert "1.05"[..2][0] != ".0"[0] && "1.05"[1..] == ".05";
    assert ReplaceAll("1.05", ".0", "") == "15";
    assert ZFill("15", KeyWidth) == "0000015";
  }

  /** The anchored variant leaves an inner ".0" in place: "1.05" becomes
      "0001.05". */
  lemma EducationKeyKeepsInnerDotZero()
    ensures EducationKey(Str("1.05")) == "0001.05"
  {
    NoDotZeroSuffix("1.05");
    assert ZFill("1.05", KeyWidth) == "0001.05";
  }

  /** On a digit code with an optional ".0" suffix the two ".0" removals
      agree. */
  lemma InepKeyAgreesOnCodes(d: string, suffixed: bool)
    requires IsDigits(d)
    ensures var s := if suffixed then d + ".0" else d;
            InepKey(Str(s)) == Str(EducationKey(Str(s)))
  {
    assert '.' !in d;
    var s := if suffixed then d + ".0" else d;
    if suffixed {
      FirstCharAbsent(d, ".0");
      ReplaceAllTrailing(d, ".0", "");
      assert d + "" == d;
      assert EndsWith(s, ".0") && s[..|s| - 2] == d;
    } else {
      forall i: nat
        ensures !OccursAt(d, ".0", i)
      {
        if i + 2 <= |d| {
          assert d[i..i + 2][0] == d[i];
          assert IsDigit(d[i]);
        }
      }
      ReplaceAllAbsent(d, ".0", "");
      assert !EndsWith(s, ".0") by { if |s| >= 2 { assert IsDigit(s[|s| - 2]); } }
      assert !EndsWith(s, ".0\n") by { if |s| >= 3 { assert IsDigit(s[|s| - 1]); } }
    }
  }

  /** Removing every ".0" can create a new one: "..00" becomes ".0". */
  lemma DotZeroRemovalCreatesDotZero()
    ensures ReplaceAll("..00", ".0", "") == ".0"
  {
    assert ReplaceAll("0", ".0", "") == "0";
    assert ".00"[..2] == ".0" && ".00"[2..] == "0";
    assert ReplaceAll(".00", ".0", "") == "0";
    assert "..00"[..2][1] != ".0"[1] && "..00"[1..] == ".00";
  }

  /** Hence the tx_rend normaliser is not idempotent: "..00" becomes
      "00000.0", and that becomes "0000000". */
  lemma InepKeyNotIdempotent()
    ensures InepKey(Str("..00")) == Str("00000.0")
    ensures InepKey(Str("00000.0")) == Str("0000000")
  {
    DotZeroRemovalCreatesDotZero();
    assert Zeros(5) + ".0" == "00000.0";
    InepKeyOfZerosDotZero();
  }

  lemma InepKeyOfZerosDotZero()
    ensures InepKey(Str("00000.0")) == Str("0000000")
  {
    var zeros := "00000";
    assert ".0"[0] !in zeros;
    FirstCharAbsent(zeros, ".0");
    ReplaceAllTrailing(zeros, ".0", "");
    assert zeros + ".0" == "00000.0";
    assert zeros + "" == zeros;
    assert Zeros(2) + "00000" == "0000000";
  }

  /** The padding-only variant keeps a float column's ".0": a seven-digit
      code read as a float (2304400.0) gives a nine-character key that no
      integer code's key equals. */
  lemma PaddedKeyKeepsDotZero(i: nat)
    requires Pow10(6) <= i < Pow10(7)
    ensures PaddedKey(Float(Decimal(i, 0))) == IntText(i) + ".0"
    ensures |PaddedKey(Float(Decimal(i, 0)))| == KeyWidth + 2
    ensures forall j: nat :: PaddedKey(Float(Decimal(i, 0))) != PaddedKey(Int(j))
  {
    assert i * Pow10(0) == i;
    WholeFloatText(i, 0);
    NatTextLength(i, 6);
    NatTextLength(i, 7);
    forall j: nat
      ensures PaddedKey(Float(Decimal(i, 0))) != PaddedKey(Int(j))
    {
      var k := PaddedKey(Float(Decimal(i, 0)));
      assert k[|k| - 2] == '.';
      var t := PaddedKey(Int(j));
      if |t| == |k| {
        assert IsDigits(t);
        assert IsDigit(t[|t| - 2]);
      }
    }
  }

  /** An integer code gets the same key from the padding-only and the
      anchored normaliser. */
  lemma PaddedKeyOfCode(i: nat)
    ensures PaddedKey(Int(i)) == EducationKey(Int(i))
  {
    var t := IntText(i);
    assert !EndsWith(t, ".0") by { if |t| >= 2 { assert IsDigit(t[|t| - 2]); } }
    assert !EndsWith(t, ".0\n") by { if |t| >= 3 { assert IsDigit(t[|t| - 1]); } }
  }
}
