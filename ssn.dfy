/** `SocialSecurityNumber`: a 9-digit United States social security number held
    as one packed `int`. The area number sits in bits 21 and up, the group number
    in bits 14 to 20 and the serial number in bits 0 to 13. */
module Ssn {
  import opened Wrappers
  import opened Int32Bits
  import opened Decimal

  /** The mask that isolates the group number after shifting it down. */
  const GroupNumberOffsetMask: Int32 := 0x7F
  /** The mask that isolates the serial number. */
  const SerialNumberOffsetMask: Int32 := 0x3FFF

  datatype SocialSecurityNumber = SocialSecurityNumber(value: Int32)
  {
    /** `AreaNumber`: the pattern's bits from 21 up, as a `ushort`. */
    function AreaNumber(): (a: nat)
      ensures a < 0x800
    {
      Pow2Values();
      DivBelow(Unsigned(value), Pow2(21), 0x800);
      ShiftRightUnsigned(value, 21) % 0x1_0000
    }

    /** `GroupNumber`: bits 14 to 20, as a `byte`. */
    function GroupNumber(): (g: nat)
      ensures g < 0x80
    {
      BitAnd(ShiftRightUnsigned(value, 14), GroupNumberOffsetMask) % 0x100
    }

    /** `SerialNumber`: bits 0 to 13, as a `ushort`. */
    function SerialNumber(): (s: nat)
      ensures s < 0x4000
    {
      BitAnd(value, SerialNumberOffsetMask) % 0x1_0000
    }

    /** `ToString()`: the general format, which is also what a null format gives;
        for parts that fit their digits it is `AAA-GG-SSSS`. */
    function ToString(): (r: string)
      ensures ToFormattedString(None) == Ok(r)
      ensures InRange(this) ==> |r| == 11 && r[3] == '-' && r[6] == '-'
    {
      assert UpperInvariant("G") == "G";
      GeneralShape(AreaNumber(), GroupNumber(), SerialNumber());
      ToFormattedString(Some("G")).value
    }

    /** `ToString(format, provider)`: `null` means "G"; the format code is read
        without regard to case; "G" and "H" give `AAA-GG-SSSS`, "U" the nine digits,
        "M" `***-**-SSSS` and "N" `*****SSSS`; any other format is refused. */
    function ToFormattedString(format: Option<string>): (r: Result<string>)
      ensures r.Throws? <==> UpperInvariant(FormatCode(format)) !in FormatCodes
      ensures r.Throws? ==> r.error == ArgumentOutOfRangeException
    {
      FormatParts(UpperInvariant(FormatCode(format)), AreaNumber(), GroupNumber(), SerialNumber())
    }

    /** `AsArray`: the nine digits, most significant first. It fails with an
        `IndexOutOfRangeException` exactly when the area number has four digits,
        which only a packed value that no parts produced can hold. */
    method AsArray() returns (r: Result<array<int>>)
      ensures r.Ok? <==> AreaNumber() < 1000
      ensures r.Throws? ==> r.error == IndexOutOfRangeException
      ensures r.Ok? ==> fresh(r.value) && r.value[..] == DigitLayers(this)
    {
      var number := new int[9](_ => 0);
      DigitsLength(SerialNumber(), 5);
      DigitsLength(GroupNumber(), 3);
      DigitsLength(AreaNumber(), 3);
      var ok := Subdivide(SerialNumber(), number, 8);
      assert ok;
      ok := Subdivide(GroupNumber(), number, 4);
      assert ok;
      ok := Subdivide(AreaNumber(), number, 2);
      if !ok {
        return Throws(IndexOutOfRangeException);
      }
      return Ok(number);
    }
  }

  /** The format codes `ToString` knows. */
  const FormatCodes: set<string> := {"G", "H", "U", "M", "N"}

  /** The text of the parts in an upper-case format code. */
  function FormatParts(code: string, area: nat, group: nat, serial: nat): (r: Result<string>)
    ensures r.Throws? <==> code !in FormatCodes
    ensures r.Throws? ==> r.error == ArgumentOutOfRangeException
  {
    var a := Format(area, 3);
    var g := Format(group, 2);
    var s := Format(serial, 4);
    if code == "G" || code == "H" then Ok(a + "-" + g + "-" + s)
    else if code == "U" then Ok(a + g + s)
    else if code == "M" then Ok("***-**-" + s)
    else if code == "N" then Ok("*****" + s)
    else Throws(ArgumentOutOfRangeException)
  }

  /** The "G" text of parts that fit their digits: three digits, a hyphen, two
      digits, a hyphen and four digits. */
  lemma GeneralShape(area: nat, group: nat, serial: nat)
    ensures area <= 999 && group <= 99 && serial <= 9999 ==>
      var t := FormatParts("G", area, group, serial).value;
      |t| == 11 && t[3] == '-' && t[6] == '-'
  {
    if area <= 999 && group <= 99 && serial <= 9999 {
      FormatDigits(area, 3);
      FormatDigits(group, 2);
      FormatDigits(serial, 4);
    }
  }

  /** The format in force: "G" when none is given. */
  function FormatCode(format: Option<string>): string {
    if format.None? then "G" else format.value
  }

  /** `ToUpperInvariant` on ASCII letters; other characters are kept. */
  function UpperInvariant(s: string): (r: string)
    ensures |r| == |s|
  {
    seq(|s|, i requires 0 <= i < |s| => if 'a' <= s[i] <= 'z' then (s[i] as int - 32) as char else s[i])
  }

  /** The packed value of three parts: `(area << 21) | (group << 14) | serial`.
      Parts that fit their bit fields do not overlap, so the pattern is their
      weighted sum. */
  function Pack(area: Int32, group: Int32, serial: Int32): (r: Int32)
    ensures 0 <= area < 0x800 && 0 <= group < 0x80 && 0 <= serial < 0x4000 ==>
      Unsigned(r) == area * 0x20_0000 + group * 0x4000 + serial
  {
    FieldsDisjoint(area, group, serial);
    BitOr(BitOr(ShiftLeft(area, 21), ShiftLeft(group, 14)), serial)
  }

  /** The parts constructor: packs the parts, then refuses an area number above
      999, a group number above 99 or a serial number above 9999. */
  function NewFromParts(area: Int32, group: Int32, serial: Int32): (r: Result<SocialSecurityNumber>)
    ensures r.Throws? <==> area > 999 || group > 99 || serial > 9999
    ensures r.Throws? ==> r.error == ArgumentOutOfRangeException
  {
    if area > 999 || group > 99 || serial > 9999 then Throws(ArgumentOutOfRangeException)
    else Ok(SocialSecurityNumber(Pack(area, group, serial)))
  }

  /** `Default`: the all-zero value, whose parts are 000-00-0000. */
  function Default(): (n: SocialSecurityNumber)
    ensures n.value == 0
    ensures n.AreaNumber() == 0 && n.GroupNumber() == 0 && n.SerialNumber() == 0
  {
    PartsOfPattern(SocialSecurityNumber(0));
    SocialSecurityNumber(0)
  }

  /** `SampleNumber`: 219-09-9999. */
  function SampleNumber(): (n: SocialSecurityNumber)
    ensures n.AreaNumber() == 219 && n.GroupNumber() == 9 && n.SerialNumber() == 9999
  {
    NewFromPartsRoundTrip(219, 9, 9999);
    NewFromParts(219, 9, 9999).value
  }

  /** `WoolsworthNumber`: 078-05-1120. */
  function WoolsworthNumber(): (n: SocialSecurityNumber)
    ensures n.AreaNumber() == 78 && n.GroupNumber() == 5 && n.SerialNumber() == 1120
  {
    NewFromPartsRoundTrip(78, 5, 1120);
    NewFromParts(78, 5, 1120).value
  }

  /** The parts fit the digits they are written with: three, two and four. */
  predicate InRange(ssn: SocialSecurityNumber) {
    ssn.AreaNumber() <= 999 && ssn.GroupNumber() <= 99 && ssn.SerialNumber() <= 9999
  }

  /** What `Subdivide` writes: the digits of `value`, least significant at
      position `count` and the others to its left; the other positions keep `s`. */
  function Layer(s: seq<int>, value: nat, count: int): (r: seq<int>)
    ensures |r| == |s|
  {
    var ds := Digits(value);
    seq(|s|, j requires 0 <= j < |s| => if count - |ds| < j <= count then ds[count - j] else s[j])
  }

  /** The array `AsArray` returns: serial, group and area digits written in turn
      into nine zeros. */
  function DigitLayers(ssn: SocialSecurityNumber): (r: seq<int>)
    ensures |r| == 9
  {
    PartsLayers(ssn.AreaNumber(), ssn.GroupNumber(), ssn.SerialNumber())
  }

  /** The three writes of `AsArray`, for given parts. */
  function PartsLayers(area: nat, group: nat, serial: nat): (r: seq<int>)
    ensures |r| == 9
  {
    Layer(Layer(Layer(seq(9, _ => 0), serial, 8), group, 4), area, 2)
  }

  /** `Subdivide`: writes the digits of `value` leftwards from position `count`,
      failing when they run past the array's start; nothing for 0. */
  method Subdivide(value: nat, number: array<int>, count: int) returns (ok: bool)
    requires 0 <= count < number.Length
    modifies number
    ensures ok <==> |Digits(value)| <= count + 1
    ensures ok ==> number[..] == Layer(old(number[..]), value, count)
  {
    if value == 0 {
      return true;
    }
    ghost var ds := Digits(value);
    ghost var i := 0;
    var x := value;
    var c := count;
    while x > 0
      invariant 0 <= i <= |ds| && c == count - i && c >= -1
      invariant Digits(x) == ds[i..]
      invariant forall j | 0 <= j < number.Length ::
        number[j] == if c < j <= count then ds[count - j] else old(number[j])
      decreases x
    {
      if c < 0 {
        return false;
      }
      number[c] := x % 10;
      c := c - 1;
      x := x / 10;
      i := i + 1;
    }
    assert i == |ds|;
    return true;
  }

  /** Packing parts that fit their bit fields: the pattern is their weighted sum,
      and the accessors read each part back. */
  lemma PackParts(area: Int32, group: Int32, serial: Int32)
    requires 0 <= area < 0x800 && 0 <= group < 0x80 && 0 <= serial < 0x4000
    ensures Unsigned(Pack(area, group, serial)) == area * 0x20_0000 + group * 0x4000 + serial
    ensures var n := SocialSecurityNumber(Pack(area, group, serial));
      n.AreaNumber() == area && n.GroupNumber() == group && n.SerialNumber() == serial
  {
    var n := SocialSecurityNumber(Pack(area, group, serial));
    PartsOfPattern(n);
    SplitPattern(Unsigned(n.value), area, group, serial);
  }

  /** The bits of the three shifted parts do not overlap, so or-ing them adds them. */
  lemma FieldsDisjoint(area: Int32, group: Int32, serial: Int32)
    ensures 0 <= area < 0x800 && 0 <= group < 0x80 && 0 <= serial < 0x4000 ==>
      Unsigned(BitOr(BitOr(ShiftLeft(area, 21), ShiftLeft(group, 14)), serial))
        == area * 0x20_0000 + group * 0x4000 + serial
  {
    if 0 <= area < 0x800 && 0 <= group < 0x80 && 0 <= serial < 0x4000 {
      FieldsSum(area, group, serial);
    }
  }

  lemma FieldsSum(area: Int32, group: Int32, serial: Int32)
    requires 0 <= area < 0x800 && 0 <= group < 0x80 && 0 <= serial < 0x4000
    ensures Unsigned(BitOr(BitOr(ShiftLeft(area, 21), ShiftLeft(group, 14)), serial))
      == area * 0x20_0000 + group * 0x4000 + serial
  {
    Pow2Values();
    assert Unsigned(ShiftLeft(area, 21)) == area * 0x20_0000;
    assert Unsigned(ShiftLeft(group, 14)) == group * 0x4000;
    var high := area * 0x80 + group;
    assert area * 0x20_0000 == (area * 0x80) * 0x4000;
    OrShifted(area * 0x80, group, 14);
    OrDisjoint(area, group, 7);
    assert Unsigned(BitOr(ShiftLeft(area, 21), ShiftLeft(group, 14))) == high * 0x4000;
    OrDisjoint(high, serial, 14);
  }

  /** A weighted sum of parts that fit their fields splits back into those parts. */
  lemma SplitPattern(u: nat, area: nat, group: nat, serial: nat)
    requires area < 0x800 && group < 0x80 && serial < 0x4000
    requires u == area * 0x20_0000 + group * 0x4000 + serial
    ensures u / 0x20_0000 == area && (u / 0x4000) % 0x80 == group && u % 0x4000 == serial
  {
    var high := area * 0x80 + group;
    assert u == high * 0x4000 + serial;
    DivModUnique(u, 0x4000, high, serial);
    DivModUnique(high, 0x80, area, group);
    DivModUnique(u, 0x20_0000, area, group * 0x4000 + serial);
  }

  /** The accessors split the pattern: the area number is its top eleven bits, the
      group number the next seven and the serial number the low fourteen. */
  lemma PartsOfPattern(ssn: SocialSecurityNumber)
    ensures var u := Unsigned(ssn.value);
      && ssn.AreaNumber() == u / 0x20_0000
      && ssn.GroupNumber() == (u / 0x4000) % 0x80
      && ssn.SerialNumber() == u % 0x4000
      && u == ssn.AreaNumber() * 0x20_0000 + ssn.GroupNumber() * 0x4000 + ssn.SerialNumber()
  {
    AreaOfPattern(ssn);
    GroupOfPattern(ssn);
    SerialOfPattern(ssn);
    PatternSum(Unsigned(ssn.value));
  }

  lemma AreaOfPattern(ssn: SocialSecurityNumber)
    ensures ssn.AreaNumber() == Unsigned(ssn.value) / 0x20_0000
  {
    Pow2Values();
  }

  lemma GroupOfPattern(ssn: SocialSecurityNumber)
    ensures ssn.GroupNumber() == (Unsigned(ssn.value) / 0x4000) % 0x80
  {
    Pow2Values();
    AndLowMask(Unsigned(ssn.value) / 0x4000, 7);
  }

  lemma SerialOfPattern(ssn: SocialSecurityNumber)
    ensures ssn.SerialNumber() == Unsigned(ssn.value) % 0x4000
  {
    Pow2Values();
    AndLowMask(Unsigned(ssn.value), 14);
  }

  /** Any number is its top bits above bit 21, the seven bits from bit 14 and the
      low fourteen bits, weighted by their positions. */
  lemma PatternSum(u: nat)
    ensures u / 0x20_0000 == (u / 0x4000) / 0x80
    ensures u == (u / 0x20_0000) * 0x20_0000 + ((u / 0x4000) % 0x80) * 0x4000 + u % 0x4000
  {
    var q := u / 0x4000;
    assert u == q * 0x4000 + u % 0x4000;
    assert q == (q / 0x80) * 0x80 + q % 0x80;
    DivModUnique(u, 0x20_0000, q / 0x80, (q % 0x80) * 0x4000 + u % 0x4000);
  }

  /** Repacking an SSN's own parts gives back its value, whatever the value. */
  lemma PackOfParts(ssn: SocialSecurityNumber)
    ensures Pack(ssn.AreaNumber(), ssn.GroupNumber(), ssn.SerialNumber()) == ssn.value
  {
    PartsOfPattern(ssn);
    PackParts(ssn.AreaNumber(), ssn.GroupNumber(), ssn.SerialNumber());
  }

  /** The parts constructor accepts parts within 0..999, 0..99 and 0..9999, and the
      number it makes holds exactly those parts. */
  lemma NewFromPartsRoundTrip(area: Int32, group: Int32, serial: Int32)
    requires 0 <= area <= 999 && 0 <= group <= 99 && 0 <= serial <= 9999
    ensures NewFromParts(area, group, serial).Ok?
    ensures var n := NewFromParts(area, group, serial).value;
      && n.AreaNumber() == area && n.GroupNumber() == group && n.SerialNumber() == serial
      && n.value == area * 0x20_0000 + group * 0x4000 + serial
      && InRange(n)
  {
    PackParts(area, group, serial);
  }

  /** Two numbers with the same parts are the same number. */
  lemma PartsDetermineNumber(m: SocialSecurityNumber, n: SocialSecurityNumber)
    requires m.AreaNumber() == n.AreaNumber() && m.GroupNumber() == n.GroupNumber()
    requires m.SerialNumber() == n.SerialNumber()
    ensures m == n
  {
    PackOfParts(m);
    PackOfParts(n);
  }

  /** The packed value of the largest parts: 999-99-9999 is 2096686863. */
  lemma PackedValues()
    ensures Pack(999, 99, 9999) == 2096686863
  {
    PackParts(999, 99, 9999);
  }
}
