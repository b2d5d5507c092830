/** `SocialSecurityNumber.TryParse` and `Parse`: a text becomes a number when it
    has the SSN pattern and its parts are valid. */
module SsnParse {
  import opened Wrappers
  import opened Decimal
  import opened Ssn
  import opened SsnText
  import opened SsnInput
  import opened SsnValidate

  /** `TryParse`: whether the text is accepted, and the number it denotes, or
      `Default` when it is not. */
  function TryParse(ssn: Option<string>): (r: (bool, SocialSecurityNumber))
    ensures r.0 <==> ValidateString(ssn)
    ensures r.0 <==> (TryParseInput(ssn).Some? &&
      var p := TryParseInput(ssn).value;
      ValidatePartsAsWritten(p.area, p.group, p.serial))
    ensures r.0 <==> (TryParseInput(ssn).Some? &&
      var p := TryParseInput(ssn).value;
      ValidateParts(p.area, p.group, p.serial))
    ensures !r.0 ==> r.1 == Default()
    ensures r.0 ==> ValidateNumber(r.1)
    ensures r.0 ==> var p := TryParseInput(ssn).value;
      r.1.AreaNumber() == p.area && r.1.GroupNumber() == p.group && r.1.SerialNumber() == p.serial
  {
    var parts := TryParseInput(ssn);
    if parts.None? then (false, Default())
    else
      var p := parts.value;
      if ValidatePartsAsWritten(p.area, p.group, p.serial) then
        NewFromPartsRoundTrip(p.area, p.group, p.serial);
        (true, NewFromParts(p.area, p.group, p.serial).value)
      else (false, Default())
  }

  /** `Parse`: the number `TryParse` finds, or an `ArgumentException`. */
  function Parse(ssn: Option<string>): (r: Result<SocialSecurityNumber>)
    ensures r.Ok? <==> ValidateString(ssn)
    ensures r.Ok? ==> r == Ok(TryParse(ssn).1)
    ensures r.Throws? ==> r.error == ArgumentException
  {
    var (ok, result) := TryParse(ssn);
    if ok then Ok(result) else Throws(ArgumentException)
  }

  /** Parsing accepts both texts `ToString` writes for numbers whose parts fit
      their digits, and recovers those parts, valid or not. */
  lemma FormatThenRecognise(ssn: SocialSecurityNumber)
    requires InRange(ssn)
    ensures var parts := Parts(ssn.AreaNumber(), ssn.GroupNumber(), ssn.SerialNumber());
      && TryParseInput(Some(ssn.ToString())) == Some(parts)
      && TryParseInput(Some(Unhyphenated(ssn))) == Some(parts)
  {
    UpperCodes();
    RecogniseFormattedParts(ssn.AreaNumber(), ssn.GroupNumber(), ssn.SerialNumber());
  }

  /** The same for parts: the "G" and "U" texts of parts that fit their digits are
      recognised, with those parts. */
  lemma RecogniseFormattedParts(area: nat, group: nat, serial: nat)
    requires area <= 999 && group <= 99 && serial <= 9999
    ensures FormatParts("G", area, group, serial).Ok? && FormatParts("U", area, group, serial).Ok?
    ensures TryParseInput(Some(FormatParts("G", area, group, serial).value)) == Some(Parts(area, group, serial))
    ensures TryParseInput(Some(FormatParts("U", area, group, serial).value)) == Some(Parts(area, group, serial))
  {
    FormatsOfParts(area, group, serial);
    RecogniseNineDigits(FormatParts("U", area, group, serial).value);
  }

  /** Nine digits, hyphenated after the third and fifth or not at all, are
      recognised with the three runs' values as parts. */
  lemma RecogniseNineDigits(u: string)
    requires |u| == 9 && AllDigits(u)
    ensures var parts := Parts(DecimalValue(u[..3]), DecimalValue(u[3..5]), DecimalValue(u[5..]));
      && TryParseInput(Some(u[..3] + "-" + u[3..5] + "-" + u[5..])) == Some(parts)
      && TryParseInput(Some(u)) == Some(parts)
  {
    var hyphenated := Layout("", u[..3], "-", u[3..5], "-", u[5..], "");
    var plain := Layout("", u[..3], "", u[3..5], "", u[5..], "");
    assert hyphenated.Render() == u[..3] + "-" + u[3..5] + "-" + u[5..];
    assert plain.Render() == u by { assert u[..3] + u[3..5] + u[5..] == u; }
    MatchComplete(hyphenated);
    MatchComplete(plain);
  }

  /** Every valid number survives being written out and parsed back, in the
      general format and in the unhyphenated one. */
  lemma FormatThenParse(ssn: SocialSecurityNumber)
    requires ValidateNumber(ssn)
    ensures Parse(Some(ssn.ToString())) == Ok(ssn)
    ensures Parse(Some(Unhyphenated(ssn))) == Ok(ssn)
  {
    ValidNumberInRange(ssn);
    FormatThenRecognise(ssn);
    PartsDetermineNumber(TryParse(Some(ssn.ToString())).1, ssn);
    PartsDetermineNumber(TryParse(Some(Unhyphenated(ssn))).1, ssn);
  }

  /** Every parsed number is written back as the digits it was read from: the
      general format of the result parses to the same number. */
  lemma ParseThenFormat(text: string)
    requires Parse(Some(text)).Ok?
    ensures Parse(Some(Parse(Some(text)).value.ToString())) == Parse(Some(text))
  {
    FormatThenParse(Parse(Some(text)).value);
  }

  /** The texts the tests parse: the Woolsworth number's two texts give it back,
      while the texts of `Default` and `SampleNumber` are refused because those
      numbers are not valid. */
  lemma NamedNumberParses()
    ensures Parse(Some("078-05-1120")) == Ok(WoolsworthNumber())
    ensures Parse(Some("078051120")) == Ok(WoolsworthNumber())
    ensures Parse(Some("000-00-0000")).Throws? && Parse(Some("000000000")).Throws?
    ensures Parse(Some("219-09-9999")).Throws? && Parse(Some("219099999")).Throws?
  {
    NamedNumberTexts();
    NamedNumbersValidity();
    PackedValues();
    FormatThenParse(WoolsworthNumber());
    UpperCodes();
    RefusedText(Default());
    RefusedText(SampleNumber());
  }

  /** A number that is not valid is refused in both texts. */
  lemma RefusedText(ssn: SocialSecurityNumber)
    requires InRange(ssn) && !ValidateNumber(ssn)
    ensures Parse(Some(ssn.ToString())).Throws? && Parse(Some(Unhyphenated(ssn))).Throws?
  {
    FormatThenRecognise(ssn);
  }
}
