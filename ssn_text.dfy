/** What the SSN's text formats and its digit array promise: the format code is
    read without regard to case, the five formats are views of the same nine
    digits, and `AsArray` returns exactly those digits. */
module SsnText {
  import opened Wrappers
  import opened Decimal
  import opened Ssn

  /** The unhyphenated text "U" of a number. */
  function Unhyphenated(ssn: SocialSecurityNumber): string {
    ssn.ToFormattedString(Some("U")).value
  }

  /** The digit values of a run of digit characters. */
  function DigitValues(s: string): (r: seq<int>)
    requires AllDigits(s)
    ensures |r| == |s|
  {
    seq(|s|, i requires 0 <= i < |s| => DigitOf(s[i]))
  }

  /** The format code's case does not matter, and no format is the general one. */
  lemma FormatIgnoresCase(ssn: SocialSecurityNumber, format: string)
    ensures ssn.ToFormattedString(Some(format)) == ssn.ToFormattedString(Some(UpperInvariant(format)))
    ensures ssn.ToFormattedString(None) == ssn.ToFormattedString(Some("G"))
    ensures ssn.ToFormattedString(Some("g")) == ssn.ToFormattedString(Some("G"))
    ensures ssn.ToFormattedString(Some("u")) == ssn.ToFormattedString(Some("U"))
  {
    assert UpperInvariant(UpperInvariant(format)) == UpperInvariant(format);
    assert UpperInvariant("g") == "G" && UpperInvariant("G") == "G";
    assert UpperInvariant("u") == "U" && UpperInvariant("U") == "U";
  }

  /** The upper-case codes are their own upper case. */
  lemma UpperCodes()
    ensures UpperInvariant("G") == "G" && UpperInvariant("H") == "H" && UpperInvariant("U") == "U"
    ensures UpperInvariant("M") == "M" && UpperInvariant("N") == "N"
  {
  }

  /** For parts that fit their digits, the formats are views of the same nine
      digits: "U" is nine digits whose three runs read back as the area, group and
      serial numbers; "G" and "H" hyphenate them; "M" and "N" mask all but the
      serial number's four. */
  lemma FormatsOfParts(area: nat, group: nat, serial: nat)
    requires area <= 999 && group <= 99 && serial <= 9999
    ensures FormatParts("U", area, group, serial).Ok?
    ensures var u := FormatParts("U", area, group, serial).value;
      && |u| == 9 && AllDigits(u)
      && DecimalValue(u[..3]) == area
      && DecimalValue(u[3..5]) == group
      && DecimalValue(u[5..]) == serial
      && FormatParts("G", area, group, serial) == Ok(u[..3] + "-" + u[3..5] + "-" + u[5..])
      && FormatParts("H", area, group, serial) == FormatParts("G", area, group, serial)
      && FormatParts("M", area, group, serial) == Ok("***-**-" + u[5..])
      && FormatParts("N", area, group, serial) == Ok("*****" + u[5..])
  {
    var a := Format(area, 3);
    var g := Format(group, 2);
    var s := Format(serial, 4);
    FormatDigits(area, 3);
    FormatDigits(group, 2);
    FormatDigits(serial, 4);
    FormatValue(area, 3);
    FormatValue(group, 2);
    FormatValue(serial, 4);
    var u := a + g + s;
    assert u[..3] == a && u[3..5] == g && u[5..] == s;
  }

  /** The same, read off a number's own formats. */
  lemma FormatsAgree(ssn: SocialSecurityNumber)
    requires InRange(ssn)
    ensures var u := Unhyphenated(ssn);
      && |u| == 9 && AllDigits(u)
      && DecimalValue(u[..3]) == ssn.AreaNumber()
      && DecimalValue(u[3..5]) == ssn.GroupNumber()
      && DecimalValue(u[5..]) == ssn.SerialNumber()
      && ssn.ToFormattedString(Some("G")) == Ok(u[..3] + "-" + u[3..5] + "-" + u[5..])
      && ssn.ToFormattedString(Some("H")) == ssn.ToFormattedString(Some("G"))
      && ssn.ToFormattedString(Some("M")) == Ok("***-**-" + u[5..])
      && ssn.ToFormattedString(Some("N")) == Ok("*****" + u[5..])
      && ssn.ToString() == u[..3] + "-" + u[3..5] + "-" + u[5..]
  {
    UpperCodes();
    FormatsOfParts(ssn.AreaNumber(), ssn.GroupNumber(), ssn.SerialNumber());
  }

  /** `AsArray` of a number whose parts fit their digits returns the digits of its
      unhyphenated text, in order. */
  lemma AsArrayIsUnhyphenatedDigits(ssn: SocialSecurityNumber)
    requires InRange(ssn)
    ensures AllDigits(Unhyphenated(ssn))
    ensures DigitLayers(ssn) == DigitValues(Unhyphenated(ssn))
  {
    UpperCodes();
    PartsLayersAreDigits(ssn.AreaNumber(), ssn.GroupNumber(), ssn.SerialNumber());
  }

  /** The same for parts: the three writes leave the digits of the "U" text. */
  lemma PartsLayersAreDigits(area: nat, group: nat, serial: nat)
    requires area <= 999 && group <= 99 && serial <= 9999
    ensures FormatParts("U", area, group, serial).Ok?
    ensures AllDigits(FormatParts("U", area, group, serial).value)
    ensures PartsLayers(area, group, serial) == DigitValues(FormatParts("U", area, group, serial).value)
  {
    FormatsOfParts(area, group, serial);
    var u := FormatParts("U", area, group, serial).value;
    FormatDigits(area, 3);
    FormatDigits(group, 2);
    FormatDigits(serial, 4);
    var zeros: seq<int> := seq(9, _ => 0);
    var l1 := Layer(zeros, serial, 8);
    var l2 := Layer(l1, group, 4);
    var l3 := Layer(l2, area, 2);
    LayerBlock(zeros, serial, 8, 4);
    LayerBlock(l1, group, 4, 2);
    LayerBlock(l2, area, 2, 3);
    forall j | 0 <= j < 9 ensures l3[j] == DigitOf(u[j]) {
      if j < 3 {
        assert u[j] == Format(area, 3)[3 - 1 - (2 - j)];
      } else if j < 5 {
        assert u[j] == Format(group, 2)[2 - 1 - (4 - j)];
      } else {
        assert u[j] == Format(serial, 4)[4 - 1 - (8 - j)];
      }
    }
  }

  /** `Subdivide` of a number below `10^width` into a block of zeros ending at
      `count` fills the block with its digits, zero-padded on the left, and leaves
      every other position alone. */
  lemma LayerBlock(s: seq<int>, value: nat, count: nat, width: nat)
    requires value < Pow10(width) && width <= count + 1 && count < |s|
    requires forall j | count - width < j <= count :: s[j] == 0
    ensures forall j | 0 <= j < |s| ::
      Layer(s, value, count)[j] == if count - width < j <= count then DigitAt(value, count - j) else s[j]
  {
    DigitsLength(value, width);
  }

  /** The texts of the three numbers the library names. */
  lemma NamedNumberTexts()
    ensures Default().ToFormattedString(Some("G")) == Ok("000-00-0000")
    ensures Default().ToFormattedString(Some("U")) == Ok("000000000")
    ensures WoolsworthNumber().ToFormattedString(Some("G")) == Ok("078-05-1120")
    ensures WoolsworthNumber().ToFormattedString(Some("U")) == Ok("078051120")
    ensures SampleNumber().ToFormattedString(Some("G")) == Ok("219-09-9999")
    ensures SampleNumber().ToFormattedString(Some("U")) == Ok("219099999")
    ensures SampleNumber().ToFormattedString(Some("M")) == Ok("***-**-9999")
    ensures SampleNumber().ToFormattedString(Some("N")) == Ok("*****9999")
  {
    UpperCodes();
    PackedValues();
    PartsTexts();
  }

  lemma PartsTexts()
    ensures FormatParts("G", 0, 0, 0) == Ok("000-00-0000")
    ensures FormatParts("U", 0, 0, 0) == Ok("000000000")
    ensures FormatParts("G", 78, 5, 1120) == Ok("078-05-1120")
    ensures FormatParts("U", 78, 5, 1120) == Ok("078051120")
    ensures FormatParts("G", 219, 9, 9999) == Ok("219-09-9999")
    ensures FormatParts("U", 219, 9, 9999) == Ok("219099999")
    ensures FormatParts("M", 219, 9, 9999) == Ok("***-**-9999")
    ensures FormatParts("N", 219, 9, 9999) == Ok("*****9999")
  {
    FormattedNumbers();
    assert "000" + "-" + "00" + "-" + "0000" == "000-00-0000";
    assert "000" + "00" + "0000" == "000000000";
    assert "078" + "-" + "05" + "-" + "1120" == "078-05-1120";
    assert "078" + "05" + "1120" == "078051120";
    assert "219" + "-" + "09" + "-" + "9999" == "219-09-9999";
    assert "219" + "09" + "9999" == "219099999";
    assert "***-**-" + "9999" == "***-**-9999";
    assert "*****" + "9999" == "*****9999";
  }

  lemma FormattedNumbers()
    ensures Format(0, 3) == "000" && Format(0, 2) == "00" && Format(0, 4) == "0000"
    ensures Format(78, 3) == "078" && Format(5, 2) == "05" && Format(1120, 4) == "1120"
    ensures Format(219, 3) == "219" && Format(9, 2) == "09" && Format(9999, 4) == "9999"
  {
    FormattedZeros();
    FormattedWoolsworth();
    FormattedSample();
  }

  lemma FormattedZeros()
    ensures Format(0, 3) == "000" && Format(0, 2) == "00" && Format(0, 4) == "0000"
  {
    assert DecimalString(0) == "0";
    assert seq(1, _ => '0') == "0" && seq(2, _ => '0') == "00" && seq(3, _ => '0') == "000";
  }

  lemma FormattedWoolsworth()
    ensures Format(78, 3) == "078" && Format(5, 2) == "05" && Format(1120, 4) == "1120"
  {
    assert DecimalString(78) == "78" && DecimalString(5) == "5" && DecimalString(1120) == "1120";
    assert seq(1, _ => '0') == "0";
  }

  lemma FormattedSample()
    ensures Format(219, 3) == "219" && Format(9, 2) == "09" && Format(9999, 4) == "9999"
  {
    assert DecimalString(219) == "219" && DecimalString(9) == "9" && DecimalString(9999) == "9999";
    assert seq(1, _ => '0') == "0";
  }

  /** The digit arrays of the three numbers the library names. */
  lemma NamedNumberArrays()
    ensures DigitLayers(Default()) == [0, 0, 0, 0, 0, 0, 0, 0, 0]
    ensures DigitLayers(WoolsworthNumber()) == [0, 7, 8, 0, 5, 1, 1, 2, 0]
    ensures DigitLayers(SampleNumber()) == [2, 1, 9, 0, 9, 9, 9, 9, 9]
  {
    PackedValues();
    PartsArrays();
  }

  lemma PartsArrays()
    ensures PartsLayers(0, 0, 0) == [0, 0, 0, 0, 0, 0, 0, 0, 0]
    ensures PartsLayers(78, 5, 1120) == [0, 7, 8, 0, 5, 1, 1, 2, 0]
    ensures PartsLayers(219, 9, 9999) == [2, 1, 9, 0, 9, 9, 9, 9, 9]
  {
    PartsTexts();
    DefaultArray();
    WoolsworthArray();
    SampleArray();
  }

  lemma DefaultArray()
    requires FormatParts("U", 0, 0, 0) == Ok("000000000")
    ensures PartsLayers(0, 0, 0) == [0, 0, 0, 0, 0, 0, 0, 0, 0]
  {
    PartsLayersAreDigits(0, 0, 0);
    assert DigitValues("000000000") == [0, 0, 0, 0, 0, 0, 0, 0, 0];
  }

  lemma WoolsworthArray()
    requires FormatParts("U", 78, 5, 1120) == Ok("078051120")
    ensures PartsLayers(78, 5, 1120) == [0, 7, 8, 0, 5, 1, 1, 2, 0]
  {
    PartsLayersAreDigits(78, 5, 1120);
    assert DigitValues("078051120") == [0, 7, 8, 0, 5, 1, 1, 2, 0];
  }

  lemma SampleArray()
    requires FormatParts("U", 219, 9, 9999) == Ok("219099999")
    ensures PartsLayers(219, 9, 9999) == [2, 1, 9, 0, 9, 9, 9, 9, 9]
  {
    PartsLayersAreDigits(219, 9, 9999);
    assert DigitValues("219099999") == [2, 1, 9, 0, 9, 9, 9, 9, 9];
  }
}
