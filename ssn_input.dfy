/** `TryParseInput`: recognising an SSN's text and reading its three parts. The
    pattern `^\s*(\d{3})[ -]?(\d{2})[ -]?(\d{4})\s*$` is matched by hand, and the
    `Layout` datatype spells out independently which texts it accepts. */
module SsnInput {
  import opened Wrappers
  import opened Decimal

  /** `\s` and `char.IsWhiteSpace` on ASCII: space, and tab to carriage return. */
  predicate IsWhiteSpace(c: char) {
    c == ' ' || '\t' <= c <= '\r'
  }

  predicate AllWhiteSpace(s: string) {
    forall i | 0 <= i < |s| :: IsWhiteSpace(s[i])
  }

  /** The class `[ -]`. */
  predicate IsSeparator(c: char) {
    c == ' ' || c == '-'
  }

  /** The three numbers read from the pattern's groups. */
  datatype Parts = Parts(area: nat, group: nat, serial: nat)

  /** The end of the run of white space starting at `i`. */
  function SkipWhiteSpace(s: string, i: nat): (r: nat)
    requires i <= |s|
    ensures i <= r <= |s| && AllWhiteSpace(s[i..r])
    ensures r == |s| || !IsWhiteSpace(s[r])
    decreases |s| - i
  {
    if i < |s| && IsWhiteSpace(s[i]) then
      var r := SkipWhiteSpace(s, i + 1);
      assert s[i..r] == [s[i]] + s[i + 1..r];
      r
    else i
  }

  /** Past the optional separator at `i`. */
  function SkipSeparator(s: string, i: nat): (r: nat)
    requires i <= |s|
    ensures r == i || (r == i + 1 && i < |s| && IsSeparator(s[i]))
    ensures r == i ==> i == |s| || !IsSeparator(s[i])
  {
    if i < |s| && IsSeparator(s[i]) then i + 1 else i
  }

  /** `n` digits start at `i`. */
  predicate DigitsAt(s: string, i: nat, n: nat) {
    i + n <= |s| && AllDigits(s[i..i + n])
  }

  /** A match of the pattern against the whole of `s`, and its three groups parsed
      as numbers. The pattern's classes do not overlap, so taking each greedily is
      the only way to match. */
  function Match(s: string): (r: Option<Parts>)
    ensures r.Some? ==> r.value.area <= 999 && r.value.group <= 99 && r.value.serial <= 9999
  {
    var i := SkipWhiteSpace(s, 0);
    if !DigitsAt(s, i, 3) then None
    else
      var j := SkipSeparator(s, i + 3);
      if !DigitsAt(s, j, 2) then None
      else
        var k := SkipSeparator(s, j + 2);
        if !DigitsAt(s, k, 4) || !AllWhiteSpace(s[k + 4..]) then None
        else
          DecimalValueBound(s[i..i + 3]);
          DecimalValueBound(s[j..j + 2]);
          DecimalValueBound(s[k..k + 4]);
          Some(Parts(DecimalValue(s[i..i + 3]), DecimalValue(s[j..j + 2]), DecimalValue(s[k..k + 4])))
  }

  /** `TryParseInput`: no parts for `null` or blank input, otherwise the parts of
      a match. */
  function TryParseInput(input: Option<string>): (r: Option<Parts>)
    ensures r.Some? ==> input.Some? && r == Match(input.value)
    ensures r.Some? ==> r.value.area <= 999 && r.value.group <= 99 && r.value.serial <= 9999
  {
    if input.None? || AllWhiteSpace(input.value) then None else Match(input.value)
  }

  /** A text the pattern accepts, cut into the pieces the pattern names. */
  datatype Layout = Layout(
    lead: string, area: string, sep1: string, group: string, sep2: string,
    serial: string, trail: string)
  {
    /** Leading and trailing white space, three, two and four digits, and at most
        one separator between the runs of digits. */
    predicate WellFormed() {
      && AllWhiteSpace(lead) && AllWhiteSpace(trail)
      && |area| == 3 && AllDigits(area)
      && |group| == 2 && AllDigits(group)
      && |serial| == 4 && AllDigits(serial)
      && |sep1| <= 1 && (sep1 != [] ==> IsSeparator(sep1[0]))
      && |sep2| <= 1 && (sep2 != [] ==> IsSeparator(sep2[0]))
    }

    function Render(): string {
      lead + area + sep1 + group + sep2 + serial + trail
    }

    function PartsOf(): Parts
      requires WellFormed()
    {
      Parts(DecimalValue(area), DecimalValue(group), DecimalValue(serial))
    }
  }

  /** White space ends at the first other character. */
  lemma {:induction false} SkipWhiteSpaceStops(s: string, i: nat, p: nat)
    requires i <= p < |s| && AllWhiteSpace(s[i..p]) && !IsWhiteSpace(s[p])
    ensures SkipWhiteSpace(s, i) == p
    decreases p - i
  {
    if i < p {
      assert IsWhiteSpace(s[i..p][0]);
      assert s[i + 1..p] == s[i..p][1..];
      SkipWhiteSpaceStops(s, i + 1, p);
    }
  }

  /** Every well-formed layout is accepted, with the parts its digits denote. */
  lemma MatchComplete(l: Layout)
    requires l.WellFormed()
    ensures Match(l.Render()) == Some(l.PartsOf())
    ensures TryParseInput(Some(l.Render())) == Some(l.PartsOf())
  {
    var s := l.Render();
    var i := |l.lead|;
    var j := i + 3 + |l.sep1|;
    var k := j + 2 + |l.sep2|;
    RenderSlices(l);
    SkipWhiteSpaceStops(s, 0, i);
    MatchAt(s, i, j, k);
    assert !AllWhiteSpace(s) by { assert !IsWhiteSpace(s[i]); }
  }

  /** Where the pieces of a layout lie in its text. */
  lemma RenderSlices(l: Layout)
    requires l.WellFormed()
    ensures var s, i := l.Render(), |l.lead|;
      var j := i + 3 + |l.sep1|;
      var k := j + 2 + |l.sep2|;
      && k + 4 <= |s|
      && s[0..i] == l.lead && s[i..i + 3] == l.area && s[i + 3..j] == l.sep1
      && s[j..j + 2] == l.group && s[j + 2..k] == l.sep2 && s[k..k + 4] == l.serial
      && s[k + 4..] == l.trail
      && s[i] == l.area[0] && s[j] == l.group[0] && s[k] == l.serial[0]
  {
    var s := l.Render();
    var i := |l.lead|;
    var j := i + 3 + |l.sep1|;
    var k := j + 2 + |l.sep2|;
    var head := l.lead + l.area + l.sep1;
    var middle := head + l.group + l.sep2;
    assert s == middle + l.serial + l.trail;
    Pieces(middle, l.serial, l.trail);
    Pieces(head, l.group, l.sep2);
    Pieces(l.lead, l.area, l.sep1);
    PrefixSlice(s, middle);
    PrefixSlice(middle, head);
  }

  /** The three pieces of a concatenation, found again by slicing. */
  lemma Pieces(a: string, b: string, c: string)
    ensures var s := a + b + c;
      && s[..|a|] == a && s[0..|a|] == a && s[|a|..|a| + |b|] == b && s[|a| + |b|..] == c
      && s[..|a| + |b|] == a + b
  {
  }

  /** Slicing a text within a prefix of it is slicing the prefix. */
  lemma PrefixSlice(s: string, p: string)
    requires |p| <= |s| && s[..|p|] == p
    ensures forall x, y | 0 <= x <= y <= |p| :: s[x..y] == p[x..y]
  {
    forall x, y | 0 <= x <= y <= |p| ensures s[x..y] == p[x..y] {
      forall t | 0 <= t < y - x ensures s[x..y][t] == p[x..y][t] {
        assert s[..|p|][x + t] == s[x + t];
      }
    }
  }

  /** A text whose white space ends at `i` and whose separators end at `j` and
      `k` is matched there, when the runs of digits and the trailing white space
      are in place. */
  lemma MatchAt(s: string, i: nat, j: nat, k: nat)
    requires i + 3 <= j <= i + 4 && j + 2 <= k <= j + 3 && k + 4 <= |s|
    requires SkipWhiteSpace(s, 0) == i
    requires AllDigits(s[i..i + 3]) && AllDigits(s[j..j + 2]) && AllDigits(s[k..k + 4])
    requires AllWhiteSpace(s[k + 4..])
    requires j == i + 4 ==> IsSeparator(s[i + 3])
    requires k == j + 3 ==> IsSeparator(s[j + 2])
    ensures Match(s) == Some(Parts(DecimalValue(s[i..i + 3]), DecimalValue(s[j..j + 2]), DecimalValue(s[k..k + 4])))
  {
    assert IsDigit(s[j..j + 2][0]) && IsDigit(s[k..k + 4][0]);
    assert SkipSeparator(s, i + 3) == j;
    assert SkipSeparator(s, j + 2) == k;
  }

  /** Every accepted text is a well-formed layout, and the parts come from its
      digits. */
  lemma MatchSound(s: string)
    requires Match(s).Some?
    ensures exists l: Layout :: l.WellFormed() && l.Render() == s && l.PartsOf() == Match(s).value
  {
    var i := SkipWhiteSpace(s, 0);
    var j := SkipSeparator(s, i + 3);
    var k := SkipSeparator(s, j + 2);
    assert DigitsAt(s, i, 3) && DigitsAt(s, j, 2) && DigitsAt(s, k, 4) && AllWhiteSpace(s[k + 4..]);
    var l := Cut(s, i, j, k);
    CutRenders(s, i, j, k);
    CutWellFormed(s, i, j, k);
    assert l.PartsOf() == Match(s).value;
  }

  /** The pieces the match finds make a well-formed layout. */
  lemma CutWellFormed(s: string, i: nat, j: nat, k: nat)
    requires i == SkipWhiteSpace(s, 0) && DigitsAt(s, i, 3)
    requires j == SkipSeparator(s, i + 3) && DigitsAt(s, j, 2)
    requires k == SkipSeparator(s, j + 2) && DigitsAt(s, k, 4) && AllWhiteSpace(s[k + 4..])
    ensures Cut(s, i, j, k).WellFormed()
  {
    assert s[..i] == s[0..i];
  }

  /** The layout with its pieces ending at `i`, `i + 3`, `j`, `j + 2`, `k` and `k + 4`. */
  function Cut(s: string, i: nat, j: nat, k: nat): Layout
    requires i + 3 <= j && j + 2 <= k && k + 4 <= |s|
  {
    Layout(s[..i], s[i..i + 3], s[i + 3..j], s[j..j + 2], s[j + 2..k], s[k..k + 4], s[k + 4..])
  }

  lemma CutRenders(s: string, i: nat, j: nat, k: nat)
    requires i + 3 <= j && j + 2 <= k && k + 4 <= |s|
    ensures Cut(s, i, j, k).Render() == s
  {
    JoinSlices(s, 0, i, i + 3);
    JoinSlices(s, 0, i + 3, j);
    JoinSlices(s, 0, j, j + 2);
    JoinSlices(s, 0, j + 2, k);
    JoinSlices(s, 0, k, k + 4);
    JoinSlices(s, 0, k + 4, |s|);
    assert s[0..i] == s[..i] && s[k + 4..|s|] == s[k + 4..] && s[0..|s|] == s;
  }

  lemma JoinSlices(s: string, a: nat, b: nat, c: nat)
    requires a <= b <= c <= |s|
    ensures s[a..b] + s[b..c] == s[a..c]
  {
  }

  /** The blank-input check refuses nothing the pattern would accept. */
  lemma BlankInputNeverMatches(s: string)
    ensures TryParseInput(Some(s)) == Match(s)
  {
    if AllWhiteSpace(s) {
      assert SkipWhiteSpace(s, 0) == |s|;
    }
  }
}
