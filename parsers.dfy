/**
  The unit and label parsers of the cleaning script: the roster height
  `"F-I"`, the season label built from a start year, and the two regular
  expressions that read combine heights (`6' 8.25''`) and wingspans
  (`7' 1.5"`). A Python exception is modelled as `None`.
 */
module Parsers {
  import opened Wrappers
  import opened Text

  // ---------------------------------------------------------------------
  // Python's int() on text

  function StripLeading(s: string): (t: string)
    ensures |t| <= |s| && t == s[|s| - |t|..]
    ensures t != [] ==> !IsSpace(t[0])
    ensures s != [] && !IsSpace(s[0]) ==> t == s
  {
    if s != [] && IsSpace(s[0]) then StripLeading(s[1..]) else s
  }

  function StripTrailing(s: string): (t: string)
    ensures |t| <= |s| && t == s[..|t|]
    ensures t != [] ==> !IsSpace(t[|t| - 1])
    ensures s != [] && !IsSpace(s[|s| - 1]) ==> t == s
  {
    if s != [] && IsSpace(s[|s| - 1]) then StripTrailing(s[..|s| - 1]) else s
  }

  /** Python's `str.strip()`: drop whitespace at both ends. */
  function Strip(s: string): string
  {
    StripTrailing(StripLeading(s))
  }

  /**
    What `int()` accepts after the optional sign: digits, where single
    underscores may separate two digits.
   */
  predicate IsIntBody(s: string)
  {
    && |s| > 0 && IsDigit(s[0]) && IsDigit(s[|s| - 1])
    && (forall i | 0 <= i < |s| :: IsDigit(s[i]) || s[i] == '_')
    && NoDoubleUnderscore(s)
  }

  predicate NoDoubleUnderscore(s: string)
  {
    |s| < 2 || (!(s[0] == '_' && s[1] == '_') && NoDoubleUnderscore(s[1..]))
  }

  lemma DigitsHaveNoDoubleUnderscore(s: string)
    requires AllDigits(s)
    ensures NoDoubleUnderscore(s)
  {
    if |s| >= 2 {
      DigitsHaveNoDoubleUnderscore(s[1..]);
    }
  }

  function DropUnderscores(s: string): (t: string)
    ensures (forall i | 0 <= i < |s| :: IsDigit(s[i]) || s[i] == '_') ==> AllDigits(t)
    ensures AllDigits(s) ==> t == s
  {
    if s == [] then []
    else if s[0] == '_' then DropUnderscores(s[1..])
    else [s[0]] + DropUnderscores(s[1..])
  }

  /** Python's `int(s)` on ASCII text; `None` is the `ValueError`. */
  function PyInt(s: string): Option<int>
  {
    var t := Strip(s);
    if |t| > 0 && t[0] == '-' then
      match UnsignedInt(t[1..])
      case Some(n) => Some(-n)
      case None => None
    else if |t| > 0 && t[0] == '+' then UnsignedInt(t[1..])
    else UnsignedInt(t)
  }

  /** The value of an unsigned `int()` literal. */
  function UnsignedInt(body: string): Option<int>
  {
    if IsIntBody(body) then Some(DigitsValue(DropUnderscores(body))) else None
  }

  /** A plain digit string reads as its decimal value. */
  lemma {:induction false} PyIntOfDigits(s: string)
    requires |s| > 0 && AllDigits(s)
    ensures PyInt(s) == Some(DigitsValue(s))
  {
    PyIntOfDigitsUnsigned(s);
    UnsignedOfDigits(s);
  }

  lemma {:induction false} PyIntOfDigitsUnsigned(s: string)
    requires |s| > 0 && AllDigits(s)
    ensures PyInt(s) == UnsignedInt(s)
  {
    var first, last := s[0], s[|s| - 1];
    assert IsDigit(first) && IsDigit(last);
    DigitIsNotSpace(first);
    DigitIsNotSpace(last);
    PyIntOfUnsigned(s);
  }

  lemma PyIntOfUnsigned(s: string)
    requires |s| > 0 && !IsSpace(s[0]) && !IsSpace(s[|s| - 1]) && s[0] != '-' && s[0] != '+'
    ensures PyInt(s) == UnsignedInt(s)
  {
    StripUnpadded(s);
  }

  lemma StripUnpadded(s: string)
    requires |s| > 0 && !IsSpace(s[0]) && !IsSpace(s[|s| - 1])
    ensures Strip(s) == s
  {
  }

  lemma {:induction false} UnsignedOfDigits(s: string)
    requires |s| > 0 && AllDigits(s)
    ensures UnsignedInt(s) == Some(DigitsValue(s))
  {
    DigitsHaveNoDoubleUnderscore(s);
    assert IsIntBody(s);
  }

  /** `int(str(n)) == n`. */
  lemma PyIntOfNatToString(n: nat)
    ensures PyInt(NatToString(n)) == Some(n)
  {
    PyIntOfDigits(NatToString(n));
    NatToStringValue(n);
  }

  // ---------------------------------------------------------------------
  // height_to_inches (data_cleaning.py:239-241): a roster height "F-I" in inches

  /**
    `height_to_inches`: split at the dashes, unpack exactly two parts, and
    return twelve times the first part's `int()` plus the second's.
   */
  function HeightToInches(height: string): Option<int>
  {
    HeightFromParts(Split(height, '-'))
  }

  /** The unpacking into exactly two names and the two `int()` calls. */
  function HeightFromParts(parts: seq<string>): Option<int>
  {
    if |parts| != 2 then None else TotalInches(PyInt(parts[0]), PyInt(parts[1]))
  }

  /** `int(feet) * 12 + int(inches)`, raising when either conversion does. */
  function TotalInches(feet: Option<int>, inches: Option<int>): (r: Option<int>)
    ensures r.Some? <==> feet.Some? && inches.Some?
    ensures r.Some? ==> r.value == 12 * feet.value + inches.value
  {
    if feet.Some? && inches.Some? then Some(feet.value * 12 + inches.value) else None
  }

  lemma HeightSplitsAtDash(feet: string, inches: string)
    requires AllDigits(feet) && AllDigits(inches)
    ensures HeightToInches(feet + "-" + inches) == HeightFromParts([feet, inches])
  {
    DigitsHaveNo(feet, '-');
    DigitsHaveNo(inches, '-');
    SplitAtFirst(feet, inches, '-');
    SplitNoSeparator(inches, '-');
    HeightViaParts(feet + "-" + inches, [feet, inches]);
  }

  lemma HeightViaParts(s: string, parts: seq<string>)
    requires Split(s, '-') == parts
    ensures HeightToInches(s) == HeightFromParts(parts)
  {
  }

  lemma HeightFromTwoParts(parts: seq<string>, f: int, i: int)
    requires |parts| == 2 && PyInt(parts[0]) == Some(f) && PyInt(parts[1]) == Some(i)
    ensures HeightFromParts(parts) == Some(12 * f + i)
  {
  }

  /** Writing a height as `str(f) + "-" + str(i)` and parsing it gives `12 * f + i` back. */
  lemma HeightToInchesRoundTrip(feet: nat, inches: nat)
    ensures HeightToInches(NatToString(feet) + "-" + NatToString(inches)) == Some(12 * feet + inches)
  {
    var f, i := NatToString(feet), NatToString(inches);
    NatToStringValue(feet);
    NatToStringValue(inches);
    HeightOfDigits(f, i, feet, inches);
  }

  /** Two digit strings joined by a dash give twelve times the first value plus the second. */
  lemma HeightOfDigits(f: string, i: string, a: nat, b: nat)
    requires |f| > 0 && AllDigits(f) && |i| > 0 && AllDigits(i) && DigitsValue(f) == a && DigitsValue(i) == b
    ensures HeightToInches(f + "-" + i) == Some(12 * a + b)
  {
    PyIntOfDigits(f);
    PyIntOfDigits(i);
    assert [f, i][0] == f && [f, i][1] == i;
    HeightFromTwoParts([f, i], a, b);
    HeightSplitsAtDash(f, i);
  }

  /** The tuple unpacking fails unless the text holds exactly one dash. */
  lemma HeightToInchesNeedsOneDash(height: string)
    requires Count(height, '-') != 1
    ensures HeightToInches(height) == None
  {
    SplitParts(height, '-');
  }

  // ---------------------------------------------------------------------
  // The season label (data_cleaning.py:236): the start year, a dash, and the
  // last two characters of the decimal text of the following year

  /** Python's `s[-2:]`. */
  function LastTwo(s: string): (t: string)
    ensures |t| == if |s| >= 2 then 2 else |s|
  {
    if |s| >= 2 then s[|s| - 2..] else s
  }

  /** The season label of a start year, as the roster cleaning writes it. */
  function SeasonLabel(year: int): string
  {
    IntToString(year) + "-" + LastTwo(IntToString(year + 1))
  }

  /** A number below 100 written with exactly two digits. */
  function TwoDigits(k: nat): (s: string)
    requires k < 100
    ensures |s| == 2 && AllDigits(s) && DigitsValue(s) == k
  {
    var s := [DigitChar(k / 10), DigitChar(k % 10)];
    assert s[..1] == [DigitChar(k / 10)] && s[..1][..0] == [];
    assert DigitsValue(s[..1]) == k / 10;
    s
  }

  lemma DivModHundred(n: nat)
    ensures (n / 10) % 10 == (n % 100) / 10
    ensures n % 10 == (n % 100) % 10
  {
    var q := n / 100;
    var r := n % 100;
    assert n == 100 * q + r;
    assert n / 10 == 10 * q + r / 10;
    assert n % 10 == r % 10;
  }

  /** The last two characters of a number of two or more digits are its value modulo 100. */
  lemma LastTwoOfNatToString(n: nat)
    requires n >= 10
    ensures LastTwo(NatToString(n)) == TwoDigits(n % 100)
  {
    var s := NatToString(n);
    var p := NatToString(n / 10);
    assert s == p + [DigitChar(n % 10)];
    var q := n / 10;
    assert p[|p| - 1] == DigitChar(q % 10) by {
      if q >= 10 {
        assert p == NatToString(q / 10) + [DigitChar(q % 10)];
      }
    }
    DivModHundred(n);
    assert LastTwo(s) == [p[|p| - 1], DigitChar(n % 10)];
  }

  /** From year 9 on, a label is the year, a dash, and the next year modulo 100 in two digits. */
  lemma SeasonLabelShape(year: int)
    requires year >= 9
    ensures SeasonLabel(year) == NatToString(year) + "-" + TwoDigits((year + 1) % 100)
  {
    LastTwoOfNatToString(year + 1);
  }

  /** The two examples of the roster data: 2013 and the century turn. */
  lemma SeasonLabelExamples()
    ensures SeasonLabel(2013) == "2013-14"
    ensures SeasonLabel(1999) == "1999-00"
  {
    Label2013();
    Label1999();
  }

  lemma Label2013()
    ensures SeasonLabel(2013) == "2013-14"
  {
    SeasonLabelShape(2013);
    Written2013();
  }

  lemma Label1999()
    ensures SeasonLabel(1999) == "1999-00"
  {
    SeasonLabelShape(1999);
    Written1999();
  }

  lemma Written2013()
    ensures NatToString(2013) == "2013" && TwoDigits(14) == "14"
  {
    assert NatToString(2013) == NatToString(201) + ['3'];
    assert NatToString(201) == NatToString(20) + ['1'];
    assert NatToString(20) == NatToString(2) + ['0'];
  }

  lemma Written1999()
    ensures NatToString(1999) == "1999" && TwoDigits(0) == "00"
  {
    assert NatToString(1999) == NatToString(199) + ['9'];
    assert NatToString(199) == NatToString(19) + ['9'];
    assert NatToString(19) == NatToString(1) + ['9'];
  }

  /**
    A label splits on its dash into exactly two parts: the start year and the
    next year modulo 100, both readable by `int()`.
   */
  lemma SeasonLabelParts(year: int)
    requires year >= 0
    ensures |Split(SeasonLabel(year), '-')| == 2
    ensures PyInt(Split(SeasonLabel(year), '-')[0]) == Some(year)
    ensures PyInt(Split(SeasonLabel(year), '-')[1]) == Some((year + 1) % 100)
  {
    SeasonLabelSplit(year);
    PyIntOfNatToString(year);
    SeasonSuffixValue(year);
  }

  lemma SeasonLabelSplit(year: nat)
    ensures Split(SeasonLabel(year), '-') == [NatToString(year), LastTwo(NatToString(year + 1))]
  {
    var a := NatToString(year);
    var b := LastTwo(NatToString(year + 1));
    assert AllDigits(b);
    DigitsHaveNo(a, '-');
    DigitsHaveNo(b, '-');
    SplitTwo(a, b, '-');
    assert SeasonLabel(year) == a + ['-'] + b;
  }

  lemma SeasonSuffixValue(year: nat)
    ensures PyInt(LastTwo(NatToString(year + 1))) == Some((year + 1) % 100)
  {
    var t := LastTwo(NatToString(year + 1));
    if year >= 9 {
      LastTwoOfNatToString(year + 1);
      PyIntOfDigits(t);
    } else {
      NatToStringValue(year + 1);
      PyIntOfDigits(t);
    }
  }

  // ---------------------------------------------------------------------
  // convert_height_to_inches and wingspan_to_inches
  //
  // Both apply `re.match` (anchored at the start only) to
  //   (\d+)'<spaces>(\d+\.?\d*)<close>
  // with <spaces> = " ?" and <close> = "''" for heights, and
  // <spaces> = " *" and <close> = "\"" for wingspans. Backtracking never
  // finds a match the greedy reading misses: every shorter choice for a
  // group or for the spaces leaves a digit, a dot or a space where an
  // apostrophe, a digit or the closing mark is needed. So the match is the
  // single greedy scan below.

  /** The space part of the pattern: `" ?"` or `" *"`. */
  datatype SpaceRule = OptionalSpace | AnySpaces

  /** Length of the longest all-digit prefix. */
  function LeadingDigits(s: string): (n: nat)
    ensures n <= |s| && AllDigits(s[..n])
    ensures n < |s| ==> !IsDigit(s[n])
  {
    if s != [] && IsDigit(s[0]) then
      var n := 1 + LeadingDigits(s[1..]);
      assert s[..n] == [s[0]] + s[1..][..n - 1];
      n
    else 0
  }

  /** Number of spaces the space part consumes (it is greedy). */
  function LeadingSpaces(s: string, rule: SpaceRule): (n: nat)
    ensures n <= |s| && forall i | 0 <= i < n :: s[i] == ' '
    ensures rule == OptionalSpace ==> n <= 1
    ensures n < |s| && (rule == AnySpaces || n == 0) ==> s[n] != ' '
  {
    if s == [] || s[0] != ' ' then 0
    else if rule == OptionalSpace then 1
    else 1 + LeadingSpaces(s[1..], rule)
  }

  function Pow10(n: nat): (p: nat)
    ensures p >= 1
  {
    if n == 0 then 1 else 10 * Pow10(n - 1)
  }

  /** The groups of a match: `(\d+)` for the feet, then `(\d+\.?\d*)` split into its parts. */
  datatype Pieces = Pieces(feet: string, spaces: string, inches: Inches)

  /** The inches numeral (`whole`, an optional dot, `frac`) and the unread text after the closing mark. */
  datatype Inches = Inches(whole: string, dot: bool, frac: string, rest: string)

  predicate InchesWellFormed(n: Inches)
  {
    |n.whole| > 0 && AllDigits(n.whole) && AllDigits(n.frac) && (!n.dot ==> n.frac == [])
  }

  predicate WellFormed(p: Pieces, rule: SpaceRule)
  {
    && |p.feet| > 0 && AllDigits(p.feet)
    && Spaces(p.spaces, rule)
    && InchesWellFormed(p.inches)
  }

  function DotText(dot: bool): string { if dot then "." else "" }

  function InchesText(n: Inches, close: string): string
  {
    n.whole + (DotText(n.dot) + (n.frac + (close + n.rest)))
  }

  /** The text made of the pieces. */
  function Assemble(p: Pieces, close: string): string
  {
    p.feet + ("'" + (p.spaces + InchesText(p.inches, close)))
  }

  /** `feet * 12 + inches` with `inches = float(group(2))`, read exactly. */
  function PiecesValue(p: Pieces): real
    requires AllDigits(p.feet) && InchesWellFormed(p.inches)
  {
    var n := p.inches;
    (12 * DigitsValue(p.feet)) as real + DigitsValue(n.whole) as real
      + DigitsValue(n.frac) as real / Pow10(|n.frac|) as real
  }

  /** A closing mark that cannot be read as part of the inches numeral. */
  predicate CloseMark(close: string)
  {
    |close| > 0 && !IsDigit(close[0]) && close[0] != '.'
  }

  lemma TakeDrop(s: string, k: nat)
    requires k <= |s|
    ensures s == s[..k] + s[k..]
  {
  }

  /** Matches `(\d+\.?\d*)<close>` at the start of `u`. */
  function ScanInches(u: string, close: string): (r: Option<Inches>)
    ensures r.Some? ==> InchesWellFormed(r.value) && InchesText(r.value, close) == u
  {
    var w := LeadingDigits(u);
    if w == 0 then None
    else
      match ScanFraction(u[w..], close)
      case None => None
      case Some((dot, frac, rest)) =>
        TakeDrop(u, w);
        Some(Inches(u[..w], dot, frac, rest))
  }

  /** After the whole inches: `\.?\d*` and then the closing mark. */
  function ScanFraction(v: string, close: string): (r: Option<(bool, string, string)>)
    requires v == [] || !IsDigit(v[0])
    ensures r.Some? ==> AllDigits(r.value.1) && (!r.value.0 ==> r.value.1 == [])
    ensures r.Some? ==> DotText(r.value.0) + (r.value.1 + (close + r.value.2)) == v
  {
    var dot := v != [] && v[0] == '.';
    var x := if dot then v[1..] else v;
    var d := LeadingDigits(x);
    if close <= x[d..] then
      var rest := x[d + |close|..];
      assert x[d..] == close + rest;
      assert x == x[..d] + (close + rest);
      assert v == DotText(dot) + x;
      Some((dot, x[..d], rest))
    else None
  }

  predicate Spaces(sp: string, rule: SpaceRule)
  {
    (forall i | 0 <= i < |sp| :: sp[i] == ' ') && (rule == OptionalSpace ==> |sp| <= 1)
  }

  /** Matches the space part and then the inches part at the start of `t`. */
  function ScanSpaced(t: string, rule: SpaceRule, close: string): (r: Option<(string, Inches)>)
    ensures r.Some? ==> Spaces(r.value.0, rule) && InchesWellFormed(r.value.1)
    ensures r.Some? ==> r.value.0 + InchesText(r.value.1, close) == t
  {
    var k := LeadingSpaces(t, rule);
    match ScanInches(t[k..], close)
    case None => None
    case Some(n) =>
      TakeDrop(t, k);
      Some((t[..k], n))
  }

  /** `re.match` of the whole pattern: the groups where it matches, `None` where it does not. */
  function Scan(s: string, rule: SpaceRule, close: string): (r: Option<Pieces>)
    ensures r.Some? ==> WellFormed(r.value, rule) && Assemble(r.value, close) == s
  {
    var f := LeadingDigits(s);
    if f == 0 || f == |s| || s[f] != '\'' then None
    else
      match ScanSpaced(s[f + 1..], rule, close)
      case None => None
      case Some((sp, n)) =>
        SplitAround(s, f);
        Some(Pieces(s[..f], sp, n))
  }

  lemma SplitAround(s: string, f: nat)
    requires f < |s|
    ensures s == s[..f] + ([s[f]] + s[f + 1..])
  {
  }

  lemma Around(a: string, c: char, b: string)
    ensures (a + ([c] + b))[..|a|] == a
    ensures (a + ([c] + b))[|a|] == c
    ensures (a + ([c] + b))[|a| + 1..] == b
  {
  }

  /** `feet * 12 + inches` where the pattern matches at the start of `s`, `None` where it does not. */
  function MatchFeetInches(s: string, rule: SpaceRule, close: string): Option<real>
  {
    match Scan(s, rule, close)
    case Some(p) => Some(PiecesValue(p))
    case None => None
  }

  const HeightClose: string := "''"
  const WingspanClose: string := "\""

  /** `convert_height_to_inches`. */
  function ConvertHeightToInches(height: string): Option<real>
  {
    MatchFeetInches(height, OptionalSpace, HeightClose)
  }

  /** `wingspan_to_inches`. */
  function WingspanToInches(wingspan: string): Option<real>
  {
    MatchFeetInches(wingspan, AnySpaces, WingspanClose)
  }

  lemma LeadingDigitsOf(a: string, b: string)
    requires AllDigits(a) && (b == [] || !IsDigit(b[0]))
    ensures LeadingDigits(a + b) == |a|
  {
    if a != [] {
      assert (a + b)[1..] == a[1..] + b;
      LeadingDigitsOf(a[1..], b);
    }
  }

  lemma LeadingSpacesOf(sp: string, b: string, rule: SpaceRule)
    requires forall i | 0 <= i < |sp| :: sp[i] == ' '
    requires rule == OptionalSpace ==> |sp| <= 1
    requires b != [] && b[0] != ' '
    ensures LeadingSpaces(sp + b, rule) == |sp|
  {
    if sp != [] && rule == AnySpaces {
      assert (sp + b)[1..] == sp[1..] + b;
      LeadingSpacesOf(sp[1..], b, rule);
    }
  }

  /** The inches part of every well-formed text is read back as exactly its pieces. */
  lemma ScanInchesComplete(n: Inches, close: string)
    requires InchesWellFormed(n) && CloseMark(close)
    ensures ScanInches(InchesText(n, close), close) == Some(n)
  {
    var u := InchesText(n, close);
    var v := DotText(n.dot) + (n.frac + (close + n.rest));
    assert u == n.whole + v;
    assert v != [] && !IsDigit(v[0]);
    LeadingDigitsOf(n.whole, v);
    assert u[..|n.whole|] == n.whole && u[|n.whole|..] == v;
    ScanFractionComplete(n.dot, n.frac, n.rest, close);
  }

  lemma ScanFractionComplete(dot: bool, frac: string, rest: string, close: string)
    requires AllDigits(frac) && (!dot ==> frac == []) && CloseMark(close)
    ensures var v := DotText(dot) + (frac + (close + rest));
      (v == [] || !IsDigit(v[0])) && ScanFraction(v, close) == Some((dot, frac, rest))
  {
    var tail := close + rest;
    var x := frac + tail;
    var v := DotText(dot) + x;
    assert (v != [] && v[0] == '.') == dot;
    assert (if dot then v[1..] else v) == x;
    LeadingDigitsOf(frac, tail);
    assert x[..|frac|] == frac && x[|frac|..] == tail;
    assert tail[|close|..] == rest;
  }

  /**
    Every text of the pattern's shape is matched, whatever follows the closing
    mark, and the groups are exactly its pieces.
   */
  lemma ScanSpacedComplete(sp: string, n: Inches, rule: SpaceRule, close: string)
    requires Spaces(sp, rule) && InchesWellFormed(n) && CloseMark(close)
    ensures ScanSpaced(sp + InchesText(n, close), rule, close) == Some((sp, n))
  {
    var u := InchesText(n, close);
    var t := sp + u;
    LeadingSpacesOf(sp, u, rule);
    assert t[..|sp|] == sp && t[|sp|..] == u;
    ScanInchesComplete(n, close);
  }

  lemma ScanComplete(p: Pieces, rule: SpaceRule, close: string)
    requires WellFormed(p, rule) && CloseMark(close)
    ensures Scan(Assemble(p, close), rule, close) == Some(p)
  {
    var t := p.spaces + InchesText(p.inches, close);
    var s := Assemble(p, close);
    var f := |p.feet|;
    assert s == p.feet + (['\''] + t);
    LeadingDigitsOf(p.feet, ['\''] + t);
    Around(p.feet, '\'', t);
    assert LeadingDigits(s) == f && s[..f] == p.feet && s[f] == '\'' && s[f + 1..] == t;
    ScanSpacedComplete(p.spaces, p.inches, rule, close);
    assert ScanSpaced(s[f + 1..], rule, close) == Some((p.spaces, p.inches));
  }

  /** A text of the pattern's shape yields twelve times the feet plus the inches. */
  lemma MatchComplete(p: Pieces, rule: SpaceRule, close: string)
    requires WellFormed(p, rule) && CloseMark(close)
    ensures MatchFeetInches(Assemble(p, close), rule, close) == Some(PiecesValue(p))
  {
    ScanComplete(p, rule, close);
  }

  /** Every value the parsers return comes from a text of the pattern's shape. */
  lemma MatchSound(s: string, rule: SpaceRule, close: string, r: real)
    requires MatchFeetInches(s, rule, close) == Some(r)
    ensures exists p :: WellFormed(p, rule) && Assemble(p, close) == s && r == PiecesValue(p)
  {
    var p := Scan(s, rule, close).value;
    assert WellFormed(p, rule) && Assemble(p, close) == s;
  }

  /** The parsers give `None` exactly when the text does not start with the pattern. */
  lemma MatchNoneIff(s: string, rule: SpaceRule, close: string)
    requires CloseMark(close)
    ensures MatchFeetInches(s, rule, close) == None <==>
            forall p :: WellFormed(p, rule) ==> Assemble(p, close) != s
  {
    if MatchFeetInches(s, rule, close) != None {
      MatchSound(s, rule, close, MatchFeetInches(s, rule, close).value);
    } else {
      forall p | WellFormed(p, rule) ensures Assemble(p, close) != s {
        MatchComplete(p, rule, close);
      }
    }
  }

  /** A combine height with and without the optional space, and with text after the match. */
  lemma ConvertHeightExample()
    ensures ConvertHeightToInches("6' 8.25'' tall") == Some(80.25)
    ensures ConvertHeightToInches("6'8''") == Some(80.0)
  {
    var p := Pieces("6", " ", Inches("8", true, "25", " tall"));
    SpacedPieces();
    MatchComplete(p, OptionalSpace, HeightClose);
    var q := Pieces("6", "", Inches("8", false, "", ""));
    TightPieces();
    MatchComplete(q, OptionalSpace, HeightClose);
  }

  lemma SpacedPieces()
    ensures var p := Pieces("6", " ", Inches("8", true, "25", " tall"));
      WellFormed(p, OptionalSpace) && Assemble(p, HeightClose) == "6' 8.25'' tall" && PiecesValue(p) == 80.25
  {
    assert DigitsValue("25") == 25 by {
      assert "25"[..1] == "2";
    }
    assert Pow10(2) == 100;
    assert Assemble(Pieces("6", " ", Inches("8", true, "25", " tall")), HeightClose) == "6' 8.25'' tall";
  }

  lemma TightPieces()
    ensures var q := Pieces("6", "", Inches("8", false, "", ""));
      WellFormed(q, OptionalSpace) && Assemble(q, HeightClose) == "6'8''" && PiecesValue(q) == 80.0
  {
  }

}
