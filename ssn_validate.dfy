/** `SocialSecurityNumber.Validate`: which parts, numbers and texts are valid SSNs.
    An area number of 0, 666 or 999 and up, a group number of 0 or 99 and up, and a
    serial number of 0 or 9999 and up are refused. */
module SsnValidate {
  import opened Wrappers
  import opened Ssn
  import opened SsnInput

  /** `Validate(int, int, int)` as written: it refuses the listed values and
      everything above the upper bounds, but nothing below zero. On parts that
      are not negative it is the corrected check. */
  function ValidatePartsAsWritten(area: Int32, group: Int32, serial: Int32): (r: bool)
    ensures r ==> area < 999 && group < 99 && serial < 9999
    ensures area >= 0 && group >= 0 && serial >= 0 ==> (r <==> ValidateParts(area, group, serial))
  {
    !(area == 0 || area == 666 || area >= 999)
    && !(group == 0 || group >= 99)
    && !(serial == 0 || serial >= 9999)
  }

  /** `Validate(int, int, int)` as intended: every part positive, and the same
      values refused. Valid parts are accepted by the parts constructor. */
  function ValidateParts(area: Int32, group: Int32, serial: Int32): (r: bool)
    ensures r ==> area > 0 && group > 0 && serial > 0
    ensures r ==> NewFromParts(area, group, serial).Ok?
  {
    && 1 <= area < 999 && area != 666
    && 1 <= group < 99
    && 1 <= serial < 9999
  }

  /** `Validate(SocialSecurityNumber)`: the check as written applied to the
      number's parts. Those parts are never negative, so this is also the
      corrected check, and a valid number's parts fit their digits. */
  function ValidateNumber(ssn: SocialSecurityNumber): (r: bool)
    ensures r <==> ValidatePartsAsWritten(ssn.AreaNumber(), ssn.GroupNumber(), ssn.SerialNumber())
    ensures r <==> ValidateParts(ssn.AreaNumber(), ssn.GroupNumber(), ssn.SerialNumber())
    ensures r ==> InRange(ssn)
  {
    ValidatePartsAsWritten(ssn.AreaNumber(), ssn.GroupNumber(), ssn.SerialNumber())
  }

  /** `Validate(string)`: the text has the SSN pattern and the check as written
      accepts its parts. Recognised parts are never negative, so this is also
      the corrected check applied to them. */
  function ValidateString(input: Option<string>): (r: bool)
    ensures r ==> input.Some?
    ensures r <==> (TryParseInput(input).Some? &&
      var p := TryParseInput(input).value;
      ValidatePartsAsWritten(p.area, p.group, p.serial))
    ensures r <==> (TryParseInput(input).Some? &&
      var p := TryParseInput(input).value;
      ValidateParts(p.area, p.group, p.serial))
  {
    var parts := TryParseInput(input);
    parts.Some? && ValidatePartsAsWritten(parts.value.area, parts.value.group, parts.value.serial)
  }

  /** The check as written lets a negative area number through. */
  lemma AsWrittenAcceptsNegativeArea()
    ensures ValidatePartsAsWritten(-1, 1, 1)
    ensures !ValidateParts(-1, 1, 1)
  {
  }

  /** On parts that are not negative, which are all the parts a number or a text
      can yield, the two checks agree. */
  lemma ChecksAgreeOnNaturals(area: Int32, group: Int32, serial: Int32)
    requires area >= 0 && group >= 0 && serial >= 0
    ensures ValidatePartsAsWritten(area, group, serial) == ValidateParts(area, group, serial)
  {
  }

  /** Valid parts are the parts of exactly one number: the parts constructor
      accepts them, the number it makes is valid and reads them back. */
  lemma ValidPartsMakeValidNumber(area: Int32, group: Int32, serial: Int32)
    requires ValidateParts(area, group, serial)
    ensures NewFromParts(area, group, serial).Ok?
    ensures var n := NewFromParts(area, group, serial).value;
      && ValidateNumber(n) && InRange(n)
      && n.AreaNumber() == area && n.GroupNumber() == group && n.SerialNumber() == serial
  {
    NewFromPartsRoundTrip(area, group, serial);
  }

  /** A valid number's parts fit the digits they are written with. */
  lemma ValidNumberInRange(ssn: SocialSecurityNumber)
    requires ValidateNumber(ssn)
    ensures InRange(ssn)
  {
  }

  /** The numbers the tests check: 999-99-9999, `Default` and `SampleNumber` are
      refused, the Woolsworth number is accepted. */
  lemma NamedNumbersValidity()
    ensures !ValidateNumber(SocialSecurityNumber(2096686863))
    ensures !ValidateNumber(Default())
    ensures !ValidateNumber(SampleNumber())
    ensures ValidateNumber(WoolsworthNumber())
    ensures !ValidatePartsAsWritten(0, 0, 0) && !ValidatePartsAsWritten(219, 9, 9999)
  {
    PackedValues();
    NewFromPartsRoundTrip(999, 99, 9999);
  }
}
