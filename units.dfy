/** The display units of amounts (BitbiUnits): how many satoshis each unit
    stands for, the text an amount is shown as, and reading such text back. */
module Units {
  import opened Ints
  import opened QtString
  import opened Amount

  datatype Unit = BTB | mBTB | uBTB | SAT

  /** When to put thin spaces between groups of three integer digits. */
  datatype SeparatorStyle = NEVER | STANDARD | ALWAYS

  /** Width of a justified amount in BTB: integer digits and decimals together. */
  const MAX_DIGITS_BTB: int := 16

  /** U+2009 THIN SPACE, the digit group separator. */
  const THIN_SP: char := '\U{2009}'

  /** Digits after the decimal point. */
  function Decimals(unit: Unit): (d: nat)
    ensures d <= 8
  {
    match unit
    case BTB => 8
    case mBTB => 5
    case uBTB => 2
    case SAT => 0
  }

  /** Satoshis in one unit: ten to the number of decimals. */
  function Factor(unit: Unit): (f: int64)
    ensures f == Pow10(Decimals(unit))
    ensures unit == BTB ==> f == COIN
  {
    Pow10Small();
    match unit
    case BTB => 100_000_000
    case mBTB => 100_000
    case uBTB => 100
    case SAT => 1
  }

  lemma Pow10Small()
    ensures Pow10(0) == 1 && Pow10(2) == 100 && Pow10(5) == 100_000 && Pow10(8) == 100_000_000
  {
    assert Pow10(1) == 10;
    assert Pow10(2) == 100;
    assert Pow10(3) == 1000;
    assert Pow10(4) == 10_000;
    assert Pow10(5) == 100_000;
    assert Pow10(6) == 1_000_000;
    assert Pow10(7) == 10_000_000;
  }

  /** The unit's name as the unit selector shows it. */
  function LongName(unit: Unit): string
  {
    match unit
    case BTB => "BTB"
    case mBTB => "mBTB"
    case uBTB => "\U{00B5}BTB (bits)"
    case SAT => "Satoshi (sat)"
  }

  /** No two units share a long name. */
  lemma LongNamesDistinct(u: Unit, v: Unit)
    requires u != v
    ensures LongName(u) != LongName(v)
  {
  }

  /** The symbol written after an amount. */
  function ShortName(unit: Unit): (s: string)
    ensures |s| >= 1 && forall i :: 0 <= i < |s| ==> !IsDigit(s[i])
  {
    match unit
    case BTB => LongName(unit)
    case mBTB => LongName(unit)
    case uBTB => "bits"
    case SAT => "sat"
  }

  /** The symbol tells the units apart. */
  lemma ShortNamesDistinct(u: Unit, v: Unit)
    requires u != v
    ensures ShortName(u) != ShortName(v)
  {
  }

  /** The stream code of a unit. */
  function ToQint8(unit: Unit): (num: int8)
    ensures 0 <= num <= 3
  {
    match unit
    case BTB => 0
    case mBTB => 1
    case uBTB => 2
    case SAT => 3
  }

  /** The unit a stream code stands for; only the four codes are defined. */
  function FromQint8(num: int8): (u: Unit)
    requires 0 <= num <= 3
    ensures ToQint8(u) == num
  {
    if num == 0 then BTB else if num == 1 then mBTB else if num == 2 then uBTB else SAT
  }

  /** The codes and the units are in one-to-one correspondence. */
  lemma Qint8RoundTrip(unit: Unit, num: int8)
    requires 0 <= num <= 3
    ensures FromQint8(ToQint8(unit)) == unit
    ensures ToQint8(FromQint8(num)) == num
  {
  }

  // ---------------------------------------------------------------------
  // Formatting
  // ---------------------------------------------------------------------

  function Abs(n: int): (a: nat)
    ensures a == n || a == -n
  {
    if n > 0 then n else -n
  }

  /** The sign before the digits: '-' for a negative amount, '+' for a
      positive one when asked for, nothing for zero. */
  function SignText(n: int, fPlus: bool): string
  {
    if n < 0 then "-" else if fPlus && n > 0 then "+" else ""
  }

  /** Groups of three characters, each after a thin space. */
  function Chunks(t: string): (r: string)
    requires |t| % 3 == 0
    decreases |t|
  {
    if |t| == 0 then "" else [THIN_SP] + t[..3] + Chunks(t[3..])
  }

  /** Length of the leading group: one to three characters, so that what
      follows divides into threes. */
  function HeadLength(n: nat): (k: nat)
    requires n >= 1
    ensures 1 <= k <= 3 && k <= n && (n - k) % 3 == 0
  {
    (n - 1) % 3 + 1
  }

  /** s with a thin space before each group of three counted from the right. */
  function Grouped(s: string): string
  {
    if |s| == 0 then "" else
    var k := HeadLength(|s|);
    s[..k] + Chunks(s[k..])
  }

  /** The integer part: justified with spaces on request, then grouped when
      separators are always wanted, or by default for more than four characters. */
  function QuotientText(unit: Unit, quotientStr: string, separators: SeparatorStyle, justify: bool): string
  {
    var q := if justify then RightJustified(quotientStr, MAX_DIGITS_BTB - Decimals(unit), ' ') else quotientStr;
    if separators == ALWAYS || (separators == STANDARD && |q| > 4) then Grouped(q) else q
  }

  /** The remainder padded with zeros to the number of decimals; nothing for
      a unit without decimals. */
  function PaddedFraction(unit: Unit, remainderStr: string): string
  {
    if Decimals(unit) > 0 then RightJustified(remainderStr, Decimals(unit), '0') else ""
  }

  /** The point and the padded remainder, for a unit with decimals. */
  function FractionText(unit: Unit, remainderStr: string): string
  {
    if Decimals(unit) > 0 then "." + PaddedFraction(unit, remainderStr) else ""
  }

  /** The text of an amount given its sign and the renderings of its
      quotient and remainder. */
  function Layout(unit: Unit, n: int, fPlus: bool, separators: SeparatorStyle, justify: bool,
                  quotientStr: string, remainderStr: string): string
  {
    SignText(n, fPlus) + QuotientText(unit, quotientStr, separators, justify) + FractionText(unit, remainderStr)
  }

  /** format: |n| / factor before the point, |n| % factor after it padded
      with zeros to the number of decimals. */
  function FormatSpec(unit: Unit, n: int64, fPlus: bool, separators: SeparatorStyle, justify: bool): string
  {
    Layout(unit, n, fPlus, separators, justify,
           NumberToString(Abs(n) / Factor(unit)), NumberToString(Abs(n) % Factor(unit)))
  }

  /** format as the C++ computes it: -n wraps around at INT64_MIN, and
      division, remainder and QString::number work on the signed result. */
  function FormatAsWritten(unit: Unit, n: int64, fPlus: bool, separators: SeparatorStyle, justify: bool): string
  {
    var nAbs: int := if n > 0 then n else WrapInt64(-(n as int));
    var coin := Factor(unit);
    Layout(unit, n, fPlus, separators, justify, Number(CDiv(nAbs, coin)), Number(CRem(nAbs, coin)))
  }

  /** format, building the integer part in place: thin spaces are inserted
      from the right, every three characters, then the sign in front. */
  method Format(unit: Unit, nIn: int64, fPlus: bool, separators: SeparatorStyle, justify: bool)
    returns (s: string)
    ensures s == FormatSpec(unit, nIn, fPlus, separators, justify)
  {
    var n := nIn;
    var coin := Factor(unit);
    var numDecimals := Decimals(unit);
    var nAbs: nat := if n > 0 then n else -(n as int);
    var quotient := nAbs / coin;
    var quotientStr := NumberToString(quotient);
    ghost var qs, rs := quotientStr, NumberToString(nAbs % coin);
    ghost var sign := SignText(n, fPlus);
    quotientStr := JustifyAndGroup(unit, quotientStr, separators, justify);
    ghost var qt := quotientStr;
    if n < 0 {
      quotientStr := "-" + quotientStr;
    } else if fPlus && n > 0 {
      quotientStr := "+" + quotientStr;
    }
    assert quotientStr == sign + qt;
    if numDecimals > 0 {
      var remainder := nAbs % coin;
      var remainderStr := RightJustified(NumberToString(remainder), numDecimals, '0');
      s := quotientStr + "." + remainderStr;
      assert remainderStr == PaddedFraction(unit, rs);
      assert FractionText(unit, rs) == "." + remainderStr;
      AppendAssoc(quotientStr, ".", remainderStr);
    } else {
      s := quotientStr;
      assert s == sign + qt + FractionText(unit, rs);
    }
    assert s == Layout(unit, nIn, fPlus, separators, justify, qs, rs);
  }

  /** format's integer part: padded with spaces on request, then grouped. */
  method JustifyAndGroup(unit: Unit, plain: string, separators: SeparatorStyle, justify: bool)
    returns (quotientStr: string)
    ensures quotientStr == QuotientText(unit, plain, separators, justify)
  {
    quotientStr := plain;
    if justify {
      quotientStr := RightJustified(quotientStr, MAX_DIGITS_BTB - Decimals(unit), ' ');
    }
    if separators == ALWAYS || (separators == STANDARD && |quotientStr| > 4) {
      quotientStr := InsertThinSpaces(quotientStr);
    }
  }

  lemma AppendAssoc(a: string, b: string, c: string)
    ensures a + b + c == a + (b + c)
  {
  }

  /** format's separator loop: counting from the right, a thin space is
      inserted before every third character, leftmost insertion last. */
  method InsertThinSpaces(plain: string) returns (quotientStr: string)
    ensures quotientStr == Grouped(plain)
  {
    quotientStr := plain;
    var qSize := |quotientStr|;
    if qSize == 0 {
      return;
    }
    var i := 3;
    while i < qSize
      invariant 3 <= i && i % 3 == 0 && i - 3 < qSize
      invariant quotientStr == plain[..qSize - (i - 3)] + Chunks(plain[qSize - (i - 3)..])
    {
      InsertStep(plain, qSize - i);
      quotientStr := quotientStr[..qSize - i] + [THIN_SP] + quotientStr[qSize - i..];
      i := i + 3;
    }
    assert qSize - (i - 3) == HeadLength(qSize);
  }

  // ---------------------------------------------------------------------
  // Grouping
  // ---------------------------------------------------------------------

  /** One round of format's insert loop: a thin space put at p, in front of
      an already grouped tail, groups three more characters. */
  lemma InsertStep(plain: string, p: nat)
    requires p + 3 <= |plain| && (|plain| - p) % 3 == 0
    ensures var cur := plain[..p + 3] + Chunks(plain[p + 3..]);
            p <= |cur| && cur[..p] + [THIN_SP] + cur[p..] == plain[..p] + Chunks(plain[p..])
  {
    var cur := plain[..p + 3] + Chunks(plain[p + 3..]);
    assert cur[..p] == plain[..p];
    assert cur[p..] == plain[p..p + 3] + Chunks(plain[p + 3..]);
    assert plain[p..][..3] == plain[p..p + 3] && plain[p..][3..] == plain[p + 3..];
  }

  lemma {:induction false} ChunksAppend(t: string, u: string)
    requires |t| % 3 == 0 && |u| == 3
    ensures Chunks(t + u) == Chunks(t) + [THIN_SP] + u
    decreases |t|
  {
    if |t| == 0 {
      assert t + u == u && u[..3] == u && u[3..] == "";
    } else {
      assert (t + u)[..3] == t[..3] && (t + u)[3..] == t[3..] + u;
      ChunksAppend(t[3..], u);
    }
  }

  /** Grouping from the left agrees with the right-to-left reading: a thin
      space before the last three characters, the rest grouped the same way. */
  lemma GroupedFromRight(s: string)
    requires |s| > 3
    ensures Grouped(s) == Grouped(s[..|s| - 3]) + [THIN_SP] + s[|s| - 3..]
  {
    var k := HeadLength(|s|);
    var r := s[..|s| - 3];
    assert HeadLength(|r|) == k;
    assert s[k..] == r[k..] + s[|s| - 3..];
    ChunksAppend(r[k..], s[|s| - 3..]);
    assert r[..k] == s[..k];
  }

  /** Grouping only adds thin spaces: one per full group after the first. */
  lemma {:induction false} GroupedLength(s: string)
    requires |s| >= 1
    ensures |Grouped(s)| == |s| + (|s| - 1) / 3
  {
    var k := HeadLength(|s|);
    ChunksLength(s[k..]);
  }

  lemma {:induction false} ChunksLength(t: string)
    requires |t| % 3 == 0
    ensures |Chunks(t)| == |t| + |t| / 3
    decreases |t|
  {
    if |t| > 0 {
      ChunksLength(t[3..]);
    }
  }

  /** Every character of s is one of cs. */
  predicate CharsIn(s: string, cs: set<char>)
  {
    forall i :: 0 <= i < |s| ==> s[i] in cs
  }

  lemma {:induction false} ChunksChars(t: string, cs: set<char>)
    requires |t| % 3 == 0 && THIN_SP in cs
    requires CharsIn(t, cs)
    ensures CharsIn(Chunks(t), cs)
    decreases |t|
  {
    if |t| > 0 {
      ChunksChars(t[3..], cs);
    }
  }

  /** Grouping brings in no character other than the thin space. */
  lemma GroupedChars(s: string, cs: set<char>)
    requires THIN_SP in cs
    requires CharsIn(s, cs)
    ensures CharsIn(Grouped(s), cs)
    ensures |s| >= 1 ==> |Grouped(s)| >= 1 && Grouped(s)[0] == s[0]
  {
    if |s| > 0 {
      ChunksChars(s[HeadLength(|s|)..], cs);
    }
  }

  lemma QuotientTextChars(unit: Unit, q: string, separators: SeparatorStyle, justify: bool, cs: set<char>)
    requires THIN_SP in cs && ' ' in cs
    requires CharsIn(q, cs)
    ensures CharsIn(QuotientText(unit, q, separators, justify), cs)
  {
    var j := if justify then RightJustified(q, MAX_DIGITS_BTB - Decimals(unit), ' ') else q;
    if justify {
      JustifiedChars(q, MAX_DIGITS_BTB - Decimals(unit), cs);
    }
    GroupedChars(j, cs);
  }

  /** Padding with spaces brings in no character other than the space. */
  lemma JustifiedChars(q: string, width: int, cs: set<char>)
    requires ' ' in cs
    requires CharsIn(q, cs)
    ensures CharsIn(RightJustified(q, width, ' '), cs)
  {
    var j := RightJustified(q, width, ' ');
    forall i | 0 <= i < |j|
      ensures j[i] in cs
    {
      if i >= |j| - |q| {
        assert j[i] == j[|j| - |q|..][i - (|j| - |q|)];
      }
    }
  }

  /** The integer part starts with a digit or with justification padding. */
  lemma QuotientTextStart(unit: Unit, qs: string, separators: SeparatorStyle, justify: bool)
    requires |qs| >= 1 && IsDigit(qs[0])
    ensures var t := QuotientText(unit, qs, separators, justify);
            |t| >= 1 && (IsDigit(t[0]) || t[0] == ' ')
  {
    var j := if justify then RightJustified(qs, MAX_DIGITS_BTB - Decimals(unit), ' ') else qs;
    assert IsDigit(j[0]) || j[0] == ' ';
    GroupedChars(j, {THIN_SP} + (set i | 0 <= i < |j| :: j[i]));
  }

  // ---------------------------------------------------------------------
  // Spaces
  // ---------------------------------------------------------------------

  predicate IsSpace(c: char)
  {
    c == ' ' || c == THIN_SP
  }

  /** removeSpaces: the text without its spaces and thin spaces. */
  function RemoveSpaces(s: string): (r: string)
    ensures |r| <= |s|
  {
    if |s| == 0 then "" else (if IsSpace(s[0]) then "" else [s[0]]) + RemoveSpaces(s[1..])
  }

  lemma {:induction false} RemoveSpacesAppend(a: string, b: string)
    ensures RemoveSpaces(a + b) == RemoveSpaces(a) + RemoveSpaces(b)
    decreases |a|
  {
    if |a| == 0 {
      assert a + b == b;
    } else {
      assert (a + b)[0] == a[0] && (a + b)[1..] == a[1..] + b;
      RemoveSpacesAppend(a[1..], b);
    }
  }

  /** Text without spaces is left as it is. */
  lemma {:induction false} RemoveSpacesNone(s: string)
    requires forall i :: 0 <= i < |s| ==> !IsSpace(s[i])
    ensures RemoveSpaces(s) == s
  {
    if |s| > 0 {
      RemoveSpacesNone(s[1..]);
    }
  }

  lemma {:induction false} RemoveSpacesPadding(k: nat)
    ensures RemoveSpaces(Repeat(' ', k)) == ""
  {
    if k > 0 {
      assert Repeat(' ', k)[0] == ' ' && Repeat(' ', k)[1..] == Repeat(' ', k - 1);
      RemoveSpacesPadding(k - 1);
    }
  }

  lemma {:induction false} RemoveSpacesChunks(t: string)
    requires |t| % 3 == 0
    ensures RemoveSpaces(Chunks(t)) == RemoveSpaces(t)
    decreases |t|
  {
    if |t| > 0 {
      RemoveSpacesAppend([THIN_SP] + t[..3], Chunks(t[3..]));
      RemoveSpacesAppend([THIN_SP], t[..3]);
      assert RemoveSpaces([THIN_SP]) == "";
      RemoveSpacesChunks(t[3..]);
      assert t == t[..3] + t[3..];
      RemoveSpacesAppend(t[..3], t[3..]);
    }
  }

  /** Grouping is undone by removing the thin spaces. */
  lemma RemoveSpacesGrouped(s: string)
    ensures RemoveSpaces(Grouped(s)) == RemoveSpaces(s)
  {
    if |s| > 0 {
      var k := HeadLength(|s|);
      RemoveSpacesAppend(s[..k], Chunks(s[k..]));
      RemoveSpacesChunks(s[k..]);
      assert s == s[..k] + s[k..];
      RemoveSpacesAppend(s[..k], s[k..]);
    }
  }

  lemma DigitsHaveNoSpace(s: string)
    requires AllDigits(s)
    ensures RemoveSpaces(s) == s
  {
    assert forall i :: 0 <= i < |s| ==> IsDigit(s[i]);
    RemoveSpacesNone(s);
  }

  /** Justification pads with spaces only. */
  lemma RemoveSpacesJustified(x: string, width: int)
    requires AllDigits(x)
    ensures RemoveSpaces(RightJustified(x, width, ' ')) == x
  {
    DigitsHaveNoSpace(x);
    if |x| < width {
      assert RightJustified(x, width, ' ') == Repeat(' ', width - |x|) + x;
      RemoveSpacesAppend(Repeat(' ', width - |x|), x);
      RemoveSpacesPadding(width - |x|);
    }
  }

  /** Removing the spaces from the integer part leaves the quotient's digits. */
  lemma RemoveSpacesQuotient(unit: Unit, qs: string, separators: SeparatorStyle, justify: bool)
    requires AllDigits(qs)
    ensures RemoveSpaces(QuotientText(unit, qs, separators, justify)) == qs
  {
    var j := if justify then RightJustified(qs, MAX_DIGITS_BTB - Decimals(unit), ' ') else qs;
    if justify {
      RemoveSpacesJustified(qs, MAX_DIGITS_BTB - Decimals(unit));
    } else {
      DigitsHaveNoSpace(qs);
    }
    RemoveSpacesGrouped(j);
  }

  // ---------------------------------------------------------------------
  // What format writes
  // ---------------------------------------------------------------------

  const DIGITS: set<char> := {'0', '1', '2', '3', '4', '5', '6', '7', '8', '9'}

  lemma DigitsInSet(s: string)
    requires AllDigits(s)
    ensures CharsIn(s, DIGITS)
  {
    forall i | 0 <= i < |s|
      ensures s[i] in DIGITS
    {
      assert IsDigit(s[i]);
    }
  }

  /** Padding digits on the left with zeros leaves only digits. */
  lemma PaddedDigits(rs: string, d: int)
    requires AllDigits(rs)
    ensures AllDigits(RightJustified(rs, d, '0'))
  {
    var f := RightJustified(rs, d, '0');
    var k := |f| - |rs|;
    forall i | 0 <= i < |f|
      ensures IsDigit(f[i])
    {
      if i >= k {
        assert f[i] == f[k..][i - k] == rs[i - k];
      }
    }
  }

  /** Padding digits on the left with zeros keeps their value. */
  lemma PaddedValue(rs: string, d: int)
    requires AllDigits(rs)
    ensures var f := RightJustified(rs, d, '0');
            AllDigits(f) && DigitsValue(f) == DigitsValue(rs)
  {
    var f := RightJustified(rs, d, '0');
    if |rs| < d {
      var z := Repeat('0', d - |rs|);
      assert f == z + rs;
      DigitsValueZeros(d - |rs|);
      DigitsValueAppend(z, rs);
      assert DigitsValue(f) == 0 * Pow10(|rs|) + DigitsValue(rs);
    } else {
      assert f == rs;
    }
  }

  /** A remainder below 10^d, padded with zeros to d characters, reads back as itself. */
  lemma FractionDigits(r: nat, d: nat)
    requires d >= 1 && r < Pow10(d)
    ensures var f := RightJustified(NumberToString(r), d, '0');
            |f| == d && AllDigits(f) && DigitsValue(f) == r
  {
    NumberToStringLength(r, d);
    NumberToStringValue(r);
    PaddedValue(NumberToString(r), d);
  }

  /** The digits of an amount with the point taken out: the quotient, then
      the remainder padded to the number of decimals. */
  function AmountDigits(unit: Unit, n: int64): string
  {
    var f := Factor(unit);
    NumberToString(Abs(n) / f) + PaddedFraction(unit, NumberToString(Abs(n) % f))
  }

  /** Those digits stand for |n|. */
  lemma AmountDigitsValue(unit: Unit, n: int64)
    ensures |AmountDigits(unit, n)| >= 1 && AllDigits(AmountDigits(unit, n))
    ensures DigitsValue(AmountDigits(unit, n)) == Abs(n)
  {
    var a, f, d := Abs(n), Factor(unit) as nat, Decimals(unit);
    var q, r := a / f, a % f;
    assert a == q * f + r;
    var dq := NumberToString(q);
    NumberToStringValue(q);
    var fr := PaddedFraction(unit, NumberToString(r));
    assert AmountDigits(unit, n) == dq + fr;
    if d > 0 {
      FractionDigits(r, d);
      DigitsValueAppend(dq, fr);
      assert DigitsValue(dq + fr) == q * f + r;
    } else {
      assert f == 1 && q == a;
      assert dq + fr == dq;
    }
  }

  /** The first character of the sign, an integer part that starts with a
      digit or a space, and the rest, tells the sign of n. */
  lemma SignOfParts(s: string, n: int, fPlus: bool, t: string, rest: string)
    requires s == SignText(n, fPlus) + t + rest
    requires |t| >= 1 && (IsDigit(t[0]) || t[0] == ' ')
    ensures |s| >= 1 && (s[0] == '-' <==> n < 0) && (s[0] == '+' <==> fPlus && n > 0)
  {
    var sign := SignText(n, fPlus);
    if sign == "" {
      assert s[0] == t[0];
    } else {
      assert s[0] == sign[0];
    }
  }

  /** The sign of a laid-out amount is its first character. */
  lemma LayoutSign(s: string, unit: Unit, n: int, fPlus: bool, separators: SeparatorStyle, justify: bool,
                   qs: string, rs: string)
    requires s == Layout(unit, n, fPlus, separators, justify, qs, rs)
    requires |qs| >= 1 && IsDigit(qs[0])
    ensures |s| >= 1 && (s[0] == '-' <==> n < 0) && (s[0] == '+' <==> fPlus && n > 0)
  {
    QuotientTextStart(unit, qs, separators, justify);
    SignOfParts(s, n, fPlus, QuotientText(unit, qs, separators, justify), FractionText(unit, rs));
  }

  /** The sign is '-' exactly for a negative amount and '+' exactly for a
      positive one with fPlus; zero is unsigned. */
  lemma FormatSign(unit: Unit, n: int64, fPlus: bool, separators: SeparatorStyle, justify: bool)
    ensures var s := FormatSpec(unit, n, fPlus, separators, justify);
            |s| >= 1 && (s[0] == '-' <==> n < 0) && (s[0] == '+' <==> fPlus && n > 0)
  {
    var f := Factor(unit) as nat;
    LayoutSign(FormatSpec(unit, n, fPlus, separators, justify), unit, n, fPlus, separators, justify,
               NumberToString(Abs(n) / f), NumberToString(Abs(n) % f));
  }

  /** After any prefix, the fraction text puts the point just before the
      last d characters, and the padded remainder in them. */
  lemma FractionAfter(unit: Unit, s: string, prefix: string, rs: string)
    requires Decimals(unit) > 0 && |rs| <= Decimals(unit)
    requires s == prefix + FractionText(unit, rs)
    ensures var d := Decimals(unit);
            |s| > d && s[|s| - d - 1] == '.' && s[|s| - d..] == PaddedFraction(unit, rs)
  {
    var d, fr := Decimals(unit), PaddedFraction(unit, rs);
    assert s == prefix + ("." + fr);
    assert s[|s| - d - 1] == '.' && s[|s| - d..] == fr;
  }

  lemma SuffixDigits(s: string, k: nat, digits: string)
    requires k <= |s| && s[|s| - k..] == digits && AllDigits(digits)
    ensures AllDigits(s[|s| - k..]) && DigitsValue(s[|s| - k..]) == DigitsValue(digits)
  {
  }

  /** A sign and an integer part made of digits, spaces and thin spaces hold no point. */
  lemma NoPointInParts(s: string, sign: string, t: string)
    requires s == sign + t + ""
    requires sign == "" || sign == "-" || sign == "+"
    requires CharsIn(t, DIGITS + {' ', THIN_SP})
    ensures '.' !in s
  {
    assert forall i :: 0 <= i < |s| ==> s[i] != '.';
  }

  /** Where the point and the padded remainder sit in a laid-out amount. */
  lemma LayoutFraction(s: string, unit: Unit, n: int, fPlus: bool, separators: SeparatorStyle, justify: bool,
                       qs: string, rs: string)
    requires s == Layout(unit, n, fPlus, separators, justify, qs, rs)
    requires AllDigits(qs) && (Decimals(unit) > 0 ==> |rs| <= Decimals(unit))
    ensures var d := Decimals(unit);
            (d > 0 ==> |s| > d && s[|s| - d - 1] == '.' && s[|s| - d..] == PaddedFraction(unit, rs))
            && (d == 0 ==> '.' !in s)
  {
    var t := QuotientText(unit, qs, separators, justify);
    var sign := SignText(n, fPlus);
    if Decimals(unit) > 0 {
      FractionAfter(unit, s, sign + t, rs);
    } else {
      DigitsInSet(qs);
      QuotientTextChars(unit, qs, separators, justify, DIGITS + {' ', THIN_SP});
      assert FractionText(unit, rs) == "";
      NoPointInParts(s, sign, t);
    }
  }

  /** What an amount's text shows after the point: with decimals, a point
      followed by exactly d digits standing for r; without, no point at all. */
  predicate FractionShown(s: string, unit: Unit, r: nat)
  {
    var d := Decimals(unit);
    (d > 0 ==> |s| > d && s[|s| - d - 1] == '.' && AllDigits(s[|s| - d..]) && DigitsValue(s[|s| - d..]) == r)
    && (d == 0 ==> '.' !in s)
  }

  /** After the point come exactly as many digits as the unit has decimals,
      standing for |n| % factor; a unit without decimals shows no point. */
  lemma FormatFraction(unit: Unit, n: int64, fPlus: bool, separators: SeparatorStyle, justify: bool)
    ensures FractionShown(FormatSpec(unit, n, fPlus, separators, justify), unit, Abs(n) % Factor(unit))
  {
    var f := Factor(unit) as nat;
    FractionOfLayout(FormatSpec(unit, n, fPlus, separators, justify), unit, n, fPlus, separators, justify,
                     Abs(n) / f, Abs(n) % f);
  }

  /** The fraction of an amount laid out from the renderings of q and r. */
  lemma FractionOfLayout(s: string, unit: Unit, n: int, fPlus: bool, separators: SeparatorStyle, justify: bool,
                         q: nat, r: nat)
    requires s == Layout(unit, n, fPlus, separators, justify, NumberToString(q), NumberToString(r))
    requires r < Pow10(Decimals(unit))
    ensures FractionShown(s, unit, r)
  {
    var qs, rs := NumberToString(q), NumberToString(r);
    if Decimals(unit) > 0 {
      NumberToStringLength(r, Decimals(unit));
      NumberToStringValue(r);
      LayoutWithDecimals(s, unit, n, fPlus, separators, justify, qs, rs);
    } else {
      LayoutFraction(s, unit, n, fPlus, separators, justify, qs, rs);
    }
  }

  /** With decimals, the last d characters are the remainder's digits,
      padded, after a point. */
  lemma LayoutWithDecimals(s: string, unit: Unit, n: int, fPlus: bool, separators: SeparatorStyle, justify: bool,
                           qs: string, rs: string)
    requires s == Layout(unit, n, fPlus, separators, justify, qs, rs)
    requires Decimals(unit) > 0 && AllDigits(rs) && |rs| <= Decimals(unit)
    ensures var d := Decimals(unit);
            |s| > d && s[|s| - d - 1] == '.' && AllDigits(s[|s| - d..])
            && DigitsValue(s[|s| - d..]) == DigitsValue(rs)
  {
    PaddedValue(rs, Decimals(unit));
    FractionAfter(unit, s, SignText(n, fPlus) + QuotientText(unit, qs, separators, justify), rs);
    var fr := PaddedFraction(unit, rs);
    assert fr == RightJustified(rs, Decimals(unit), '0');
    SuffixDigits(s, Decimals(unit), fr);
  }

  /** The middle of three strings joined together. */
  lemma MiddlePart(s: string, a: string, t: string, b: string)
    requires s == a + t + b
    ensures |a| <= |s| - |b| && s[|a|..|s| - |b|] == t
  {
  }

  /** Between the sign and the point lies the integer part, which is the
      quotient's digits once the spaces are removed. */
  lemma LayoutQuotient(s: string, unit: Unit, n: int, fPlus: bool, separators: SeparatorStyle, justify: bool,
                       qs: string, rs: string)
    requires s == Layout(unit, n, fPlus, separators, justify, qs, rs)
    requires AllDigits(qs) && (Decimals(unit) > 0 ==> |rs| <= Decimals(unit))
    ensures var d := Decimals(unit);
            var lo, hi := |SignText(n, fPlus)|, if d > 0 then |s| - d - 1 else |s|;
            lo <= hi <= |s| && RemoveSpaces(s[lo..hi]) == qs
  {
    var d := Decimals(unit);
    var t, ft := QuotientText(unit, qs, separators, justify), FractionText(unit, rs);
    RemoveSpacesQuotient(unit, qs, separators, justify);
    assert |ft| == if d > 0 then d + 1 else 0;
    MiddlePart(s, SignText(n, fPlus), t, ft);
  }

  /** The integer part, once its spaces are removed, is the decimal
      rendering of |n| / factor (which reads back as that number by
      NumberToStringValue). */
  lemma FormatQuotient(unit: Unit, n: int64, fPlus: bool, separators: SeparatorStyle, justify: bool)
    ensures var s, d := FormatSpec(unit, n, fPlus, separators, justify), Decimals(unit);
            var lo, hi := |SignText(n, fPlus)|, if d > 0 then |s| - d - 1 else |s|;
            lo <= hi <= |s| && RemoveSpaces(s[lo..hi]) == NumberToString(Abs(n) / Factor(unit))
  {
    var d, f := Decimals(unit), Factor(unit) as nat;
    var q, r := Abs(n) / f, Abs(n) % f;
    if d > 0 {
      NumberToStringLength(r, d);
    }
    LayoutQuotient(FormatSpec(unit, n, fPlus, separators, justify), unit, n, fPlus, separators, justify,
                   NumberToString(q), NumberToString(r));
  }

  /** format with a fixed amount: the method builds what FormatSpec describes,
      and the as-written variant agrees everywhere but at INT64_MIN. */
  lemma FormatAsWrittenAgrees(unit: Unit, n: int64, fPlus: bool, separators: SeparatorStyle, justify: bool)
    requires n > INT64_MIN
    ensures FormatAsWritten(unit, n, fPlus, separators, justify) == FormatSpec(unit, n, fPlus, separators, justify)
  {
    var nAbs: int := if n > 0 then n else WrapInt64(-(n as int));
    assert nAbs == Abs(n);
  }

  /** At INT64_MIN the C++ negation leaves the value negative, so the
      quotient is rendered with its own '-' after the one format adds. */
  lemma FormatMinInt64DoubleSign()
    ensures FormatAsWritten(SAT, INT64_MIN, false, NEVER, false)
            == "--" + NumberToString(0x8000_0000_0000_0000)
    ensures FormatSpec(SAT, INT64_MIN, false, NEVER, false)
            == "-" + NumberToString(0x8000_0000_0000_0000)
  {
    var m := 0x8000_0000_0000_0000;
    var t := Number(INT64_MIN);
    assert WrapInt64(-(INT64_MIN as int)) == INT64_MIN;
    assert CDiv(INT64_MIN, 1) == INT64_MIN && CRem(INT64_MIN, 1) == 0;
    assert t == "-" + NumberToString(m);
    LayoutPlain(INT64_MIN, false, t, Number(0));
    AppendAssoc("-", "-", NumberToString(m));
    assert Abs(INT64_MIN) / Factor(SAT) == m && Abs(INT64_MIN) % Factor(SAT) == 0;
    LayoutPlain(INT64_MIN, false, NumberToString(m), NumberToString(0));
  }

  /** In satoshis, without justification or separators, the text is the sign
      followed by the quotient's rendering. */
  lemma LayoutPlain(n: int, fPlus: bool, qs: string, rs: string)
    ensures Layout(SAT, n, fPlus, NEVER, false, qs, rs) == SignText(n, fPlus) + qs
  {
    assert QuotientText(SAT, qs, NEVER, false) == qs;
    assert FractionText(SAT, rs) == "";
    var sq := SignText(n, fPlus) + qs;
    assert sq + "" == sq;
  }

  // ---------------------------------------------------------------------
  // Parsing
  // ---------------------------------------------------------------------

  /** parse up to the conversion: the text handed to toLongLong, that is the
      whole part followed by the decimals padded with zeros, or None when the
      text is empty, has more than one point or too many decimals. */
  function ParseText(unit: Unit, value: string): (r: Option<string>)
    ensures |value| == 0 ==> r == None
    ensures Count(RemoveSpaces(value), '.') > 1 ==> r == None
  {
    if |value| == 0 then None
    else
      var parts := Split(RemoveSpaces(value), '.');
      if |parts| > 2 then None
      else
        var whole := parts[0];
        var decimals := if |parts| > 1 then parts[1] else "";
        if |decimals| > Decimals(unit) then None
        else Some(whole + LeftJustified(decimals, Decimals(unit), '0'))
  }

  /** parse as written: texts longer than 18 characters are refused before
      the conversion. */
  function ParseAsWritten(unit: Unit, value: string): (r: Option<int64>)
    ensures ParseText(unit, value) == None ==> r == None
    ensures ParseText(unit, value).Some? && |ParseText(unit, value).value| > 18 ==> r == None
  {
    match ParseText(unit, value)
    case None => None
    case Some(str) => if |str| > 18 then None else ToLongLong(str)
  }

  /** parse without the length guard: toLongLong itself refuses a value
      beyond the int64 range. */
  function Parse(unit: Unit, value: string): (r: Option<int64>)
    ensures ParseText(unit, value) == None ==> r == None
    ensures ParseAsWritten(unit, value).Some? ==> r == ParseAsWritten(unit, value)
  {
    match ParseText(unit, value)
    case None => None
    case Some(str) => ToLongLong(str)
  }

  /** A text with one point: the decimals must not be longer than the unit
      allows, and are padded with zeros to that length. */
  lemma ParseTextOfFraction(unit: Unit, value: string, whole: string, frac: string)
    requires RemoveSpaces(value) == whole + "." + frac
    requires '.' !in whole && '.' !in frac
    ensures ParseText(unit, value)
            == if |frac| > Decimals(unit) then None
               else Some(whole + LeftJustified(frac, Decimals(unit), '0'))
  {
    assert whole + "." + frac == whole + ['.'] + frac;
    SplitInverse(whole, frac, '.');
  }

  /** A text without a point is all whole units: the decimals are zeros. */
  lemma ParseTextOfWhole(unit: Unit, value: string, whole: string)
    requires |value| >= 1 && RemoveSpaces(value) == whole && '.' !in whole
    ensures ParseText(unit, value) == Some(whole + Repeat('0', Decimals(unit)))
  {
    SplitWithoutSeparator(whole, '.');
    assert LeftJustified("", Decimals(unit), '0') == Repeat('0', Decimals(unit));
  }

  /** parse once the split has produced a sign and digits worth m: their
      signed value when it fits in an int64, a refusal otherwise. */
  lemma ParseOfDigitText(unit: Unit, value: string, sign: string, digits: string, m: nat)
    requires ParseText(unit, value) == Some(sign + digits)
    requires IsSign(sign) && |digits| >= 1 && AllDigits(digits) && DigitsValue(digits) == m
    ensures Parse(unit, value) == SignedInt64(sign, m)
  {
    ToLongLongOfSignedDigits(sign, digits);
  }

  /** The amount parse gives for text that, without its spaces, is a sign,
      whole digits, a point and at most `decimals` fraction digits: the
      whole units plus the fraction scaled to satoshis, or a refusal when
      that leaves int64. */
  lemma ParseDecimal(unit: Unit, value: string, sign: string, whole: string, frac: string)
    requires ParseText(unit, value) == Some(sign + (whole + LeftJustified(frac, Decimals(unit), '0')))
    requires IsSign(sign) && AllDigits(whole) && AllDigits(frac)
    requires |frac| <= Decimals(unit) && |whole| + Decimals(unit) >= 1
    ensures Parse(unit, value) == SignedInt64(sign, DecimalValue(whole, frac, Decimals(unit)))
  {
    var d := Decimals(unit);
    var padded := LeftJustified(frac, d, '0');
    var digits := whole + padded;
    assert AllDigits(digits) && |digits| >= 1 && DigitsValue(digits) == DecimalValue(whole, frac, d) by {
      WholeAndFractionValue(whole, frac, d);
    }
    ParseOfDigitText(unit, value, sign, digits, DecimalValue(whole, frac, d));
  }

  /** The decimal whole.frac counted in steps of 10^-d, for at most d
      fraction digits. */
  function DecimalValue(whole: string, frac: string, d: nat): nat
    requires AllDigits(whole) && AllDigits(frac) && |frac| <= d
  {
    MulMonotone(0, DigitsValue(whole), Pow10(d));
    MulMonotone(0, DigitsValue(frac), Pow10(d - |frac|));
    DigitsValue(whole) * Pow10(d) + DigitsValue(frac) * Pow10(d - |frac|)
  }

  /** Whole digits followed by fraction digits padded to d places. */
  lemma WholeAndFractionValue(whole: string, frac: string, d: nat)
    requires AllDigits(whole) && AllDigits(frac) && |frac| <= d
    ensures AllDigits(whole + LeftJustified(frac, d, '0'))
    ensures DigitsValue(whole + LeftJustified(frac, d, '0')) == DecimalValue(whole, frac, d)
  {
    var padded := LeftJustified(frac, d, '0');
    var zeros := Repeat('0', d - |frac|);
    assert padded == frac + zeros;
    DigitsValueZeros(d - |frac|);
    DigitsValueAppend(frac, zeros);
    DigitsValueAppend(whole, padded);
  }

  /** The amount parse gives for text that, without its spaces, is a sign
      and whole digits: that many units in satoshis, or a refusal when that
      leaves int64. */
  lemma ParseWhole(unit: Unit, value: string, sign: string, whole: string)
    requires RemoveSpaces(value) == sign + whole
    requires IsSign(sign) && |whole| >= 1 && AllDigits(whole)
    ensures Parse(unit, value) == SignedInt64(sign, DigitsValue(whole) * Factor(unit))
  {
    var zeros := Repeat('0', Decimals(unit));
    var digits := whole + zeros;
    assert ParseText(unit, value) == Some(sign + digits) by {
      NoPointInNumber(sign, whole);
      ParseTextOfWhole(unit, value, sign + whole);
      AppendAssoc(sign, whole, zeros);
    }
    assert AllDigits(digits) && |digits| >= 1 && DigitsValue(digits) == DigitsValue(whole) * Factor(unit) by {
      DigitsValueZeros(Decimals(unit));
      DigitsValueAppend(whole, zeros);
    }
    ParseOfDigitText(unit, value, sign, digits, DigitsValue(whole) * Factor(unit));
  }

  /** The guard refuses by length, not value: eighteen or more leading
      zeros before a 1 are refused as written, though the text is worth one
      satoshi, and are read back by the corrected parse. */
  lemma GuardRefusesLeadingZeros(k: nat)
    requires k >= 18
    ensures ParseAsWritten(SAT, Repeat('0', k) + "1") == None
    ensures Parse(SAT, Repeat('0', k) + "1") == Some(1)
  {
    var s := Repeat('0', k) + "1";
    assert AllDigits(s) && DigitsValue(s) == 1 by {
      DigitsValueZeros(k);
      DigitsValueAppend(Repeat('0', k), "1");
    }
    assert ParseText(SAT, s) == Some(s) by {
      DigitsHaveNoSpace(s);
      DigitsHaveNoPoint(s);
      ParseTextOfWhole(SAT, s, s);
      assert Repeat('0', Decimals(SAT)) == "";
      assert s + "" == s;
    }
    assert |s| > 18;
    assert ToLongLong(s) == Some(1) by {
      ToLongLongOfSignedDigits("", s);
      assert "" + s == s;
    }
  }

  /** parse reads "1.5" in BTB as one and a half coins. */
  lemma ParseOneAndAHalf()
    ensures ParseAsWritten(BTB, "1.5") == Some(150_000_000)
    ensures Parse(BTB, "1.5") == Some(150_000_000)
  {
    OneAndAHalfText();
    OneAndAHalfDigits();
    ToLongLongUnsigned("150000000");
  }

  /** "1.5" in BTB is handed to toLongLong as the eight decimals "150000000". */
  lemma OneAndAHalfText()
    ensures ParseText(BTB, "1.5") == Some("150000000")
  {
    RemoveSpacesNone("1.5");
    assert "1.5" == "1" + "." + "5";
    ParseTextOfFraction(BTB, "1.5", "1", "5");
    assert ParseText(BTB, "1.5") == Some("1" + LeftJustified("5", 8, '0'));
    assert LeftJustified("5", 8, '0') == "5" + Repeat('0', 7);
    assert Repeat('0', 7) == "0000000";
    assert "1" + ("5" + "0000000") == "150000000";
  }

  lemma OneAndAHalfDigits()
    ensures AllDigits("150000000") && DigitsValue("150000000") == 150_000_000
  {
    DigitsValueZeros(7);
    assert "5" + Repeat('0', 7) == "50000000";
    DigitsValueAppend("5", Repeat('0', 7));
    DigitsValueAppend("1", "50000000");
    assert "1" + "50000000" == "150000000";
  }

  /** Neither a sign nor digits contain a point. */
  lemma NoPointInNumber(sign: string, digits: string)
    requires sign == "" || sign == "-" || sign == "+"
    requires AllDigits(digits)
    ensures '.' !in sign + digits
  {
    DigitsInSet(digits);
    assert forall i :: 0 <= i < |sign + digits| ==> (sign + digits)[i] != '.';
  }

  /** Removing the spaces from a sign, an integer part and a space-free
      rest leaves the sign, the integer part's digits and the rest. */
  lemma RemoveSpacesParts(s: string, sign: string, t: string, qs: string, ft: string)
    requires s == sign + t + ft
    requires sign == "" || sign == "-" || sign == "+"
    requires RemoveSpaces(t) == qs && RemoveSpaces(ft) == ft
    ensures RemoveSpaces(s) == sign + qs + ft
  {
    RemoveSpacesNone(sign);
    RemoveSpacesAppend(sign, t);
    RemoveSpacesAppend(sign + t, ft);
  }

  /** The point and the padded remainder hold no space. */
  lemma RemoveSpacesFractionText(unit: Unit, rs: string)
    requires AllDigits(rs)
    ensures RemoveSpaces(FractionText(unit, rs)) == FractionText(unit, rs)
  {
    if Decimals(unit) > 0 {
      var fr := PaddedFraction(unit, rs);
      PaddedDigits(rs, Decimals(unit));
      DigitsHaveNoSpace(fr);
      RemoveSpacesAppend(".", fr);
      assert RemoveSpaces(".") == ".";
    } else {
      assert FractionText(unit, rs) == "";
    }
  }

  /** Removing the spaces from a laid-out amount leaves the sign, the
      quotient's digits, and the point with the padded remainder. */
  lemma RemoveSpacesLayout(s: string, unit: Unit, n: int, fPlus: bool, separators: SeparatorStyle, justify: bool,
                           qs: string, rs: string)
    requires s == Layout(unit, n, fPlus, separators, justify, qs, rs)
    requires AllDigits(qs) && AllDigits(rs)
    ensures RemoveSpaces(s) == SignText(n, fPlus) + qs + FractionText(unit, rs)
  {
    RemoveSpacesQuotient(unit, qs, separators, justify);
    RemoveSpacesFractionText(unit, rs);
    RemoveSpacesParts(s, SignText(n, fPlus), QuotientText(unit, qs, separators, justify), qs, FractionText(unit, rs));
  }

  /** parse's text for any string that is, once its spaces are removed, a
      sign, digits and the fraction text. */
  lemma ParseTextOfParts(unit: Unit, s: string, sign: string, qs: string, rs: string)
    requires sign == "" || sign == "-" || sign == "+"
    requires |qs| >= 1 && AllDigits(qs) && AllDigits(rs)
    requires Decimals(unit) > 0 ==> |rs| <= Decimals(unit)
    requires RemoveSpaces(s) == sign + qs + FractionText(unit, rs)
    ensures ParseText(unit, s) == Some(sign + qs + PaddedFraction(unit, rs))
  {
    NoPointInNumber(sign, qs);
    if Decimals(unit) > 0 {
      var fr := PaddedFraction(unit, rs);
      PaddedFractionText(unit, rs);
      AppendAssoc(sign + qs, ".", fr);
      ParseTextWithPoint(unit, s, sign + qs, fr);
    } else {
      assert RemoveSpaces(s) == sign + qs;
      ParseTextOfWhole(unit, s, sign + qs);
      assert Repeat('0', 0) == "" && PaddedFraction(unit, rs) == "";
    }
  }

  /** The padded remainder: exactly d digits, and the point before it. */
  lemma PaddedFractionText(unit: Unit, rs: string)
    requires Decimals(unit) > 0 && AllDigits(rs) && |rs| <= Decimals(unit)
    ensures var fr := PaddedFraction(unit, rs);
            |fr| == Decimals(unit) && '.' !in fr && FractionText(unit, rs) == "." + fr
  {
    var fr := RightJustified(rs, Decimals(unit), '0');
    assert PaddedFraction(unit, rs) == fr;
    PaddedDigits(rs, Decimals(unit));
    DigitsHaveNoPoint(fr);
  }

  lemma DigitsHaveNoPoint(s: string)
    requires AllDigits(s)
    ensures '.' !in s
  {
    forall i | 0 <= i < |s|
      ensures s[i] != '.'
    {
      assert IsDigit(s[i]);
    }
  }

  /** A whole part, a point and exactly d decimals are read without padding. */
  lemma ParseTextWithPoint(unit: Unit, s: string, whole: string, fr: string)
    requires Decimals(unit) > 0 && |fr| == Decimals(unit)
    requires '.' !in whole && '.' !in fr && RemoveSpaces(s) == whole + "." + fr
    ensures ParseText(unit, s) == Some(whole + fr)
  {
    ParseTextOfFraction(unit, s, whole, fr);
    assert LeftJustified(fr, Decimals(unit), '0') == fr;
  }

  /** What parse is given for a laid-out amount: the sign, the quotient's
      digits and the padded remainder. */
  lemma ParseTextOfLayout(s: string, unit: Unit, n: int, fPlus: bool, separators: SeparatorStyle, justify: bool,
                          qs: string, rs: string)
    requires s == Layout(unit, n, fPlus, separators, justify, qs, rs)
    requires |qs| >= 1 && AllDigits(qs) && AllDigits(rs)
    requires Decimals(unit) > 0 ==> |rs| <= Decimals(unit)
    ensures ParseText(unit, s) == Some(SignText(n, fPlus) + qs + PaddedFraction(unit, rs))
  {
    RemoveSpacesLayout(s, unit, n, fPlus, separators, justify, qs, rs);
    ParseTextOfParts(unit, s, SignText(n, fPlus), qs, rs);
  }

  /** What parse is given for a formatted amount: the sign and the amount's digits. */
  lemma ParseTextOfFormat(unit: Unit, n: int64, fPlus: bool, separators: SeparatorStyle, justify: bool)
    ensures ParseText(unit, FormatSpec(unit, n, fPlus, separators, justify))
            == Some(SignText(n, fPlus) + AmountDigits(unit, n))
  {
    var d, f := Decimals(unit), Factor(unit) as nat;
    var q, r := Abs(n) / f, Abs(n) % f;
    if d > 0 {
      NumberToStringLength(r, d);
    }
    var qs, fr := NumberToString(q), PaddedFraction(unit, NumberToString(r));
    ParseTextOfLayout(FormatSpec(unit, n, fPlus, separators, justify), unit, n, fPlus, separators, justify,
                      qs, NumberToString(r));
    AppendAssoc(SignText(n, fPlus), qs, fr);
    assert AmountDigits(unit, n) == qs + fr;
  }

  /** parse reads back what format writes, for every int64 amount, in every
      unit, with or without plus sign, separators and justification. */
  lemma ParseOfFormat(unit: Unit, n: int64, fPlus: bool, separators: SeparatorStyle, justify: bool)
    ensures Parse(unit, FormatSpec(unit, n, fPlus, separators, justify)) == Some(n)
  {
    ParseTextOfFormat(unit, n, fPlus, separators, justify);
    AmountDigitsValue(unit, n);
    ToLongLongOfDigits(SignText(n, fPlus), AmountDigits(unit, n));
  }

  /** A quotient of a value below 10^(m+d) by 10^d is below 10^m. */
  lemma QuotientBelow(a: nat, d: nat, m: nat)
    requires a < Pow10(m + d)
    ensures a / Pow10(d) < Pow10(m)
  {
    Pow10Add(m, d);
    DivBelow(a, Pow10(d), Pow10(m));
  }

  /** The guarded parse reads back every amount smaller in size than 10^17
      satoshis: its text has at most 18 sign and digit characters. */
  lemma ParseAsWrittenOfFormat(unit: Unit, n: int64, fPlus: bool, separators: SeparatorStyle, justify: bool)
    requires Abs(n) < 100_000_000_000_000_000
    ensures ParseAsWritten(unit, FormatSpec(unit, n, fPlus, separators, justify)) == Some(n)
  {
    var s := FormatSpec(unit, n, fPlus, separators, justify);
    ParseOfFormat(unit, n, fPlus, separators, justify);
    ParseTextOfFormat(unit, n, fPlus, separators, justify);
    AmountDigitsLength(unit, n);
    assert |SignText(n, fPlus) + AmountDigits(unit, n)| <= 18;
  }

  /** An amount below 10^17 has at most 17 digits, whatever the unit. */
  lemma AmountDigitsLength(unit: Unit, n: int64)
    requires Abs(n) < 100_000_000_000_000_000
    ensures |AmountDigits(unit, n)| <= 17
  {
    var d, f := Decimals(unit), Factor(unit) as nat;
    var q, r := Abs(n) / f, Abs(n) % f;
    Pow10Of18();
    QuotientBelow(Abs(n), d, 17 - d);
    NumberToStringLength(q, 17 - d);
    if d > 0 {
      NumberToStringLength(r, d);
      assert |PaddedFraction(unit, NumberToString(r))| == d;
    } else {
      assert PaddedFraction(unit, NumberToString(r)) == "";
    }
  }

  /** The guard refuses the text of every amount of 10^18 satoshis or more. */
  lemma ParseAsWrittenRefusesLarge(unit: Unit, n: int64, fPlus: bool, separators: SeparatorStyle, justify: bool)
    requires Abs(n) >= 1_000_000_000_000_000_000
    ensures ParseAsWritten(unit, FormatSpec(unit, n, fPlus, separators, justify)) == None
  {
    ParseTextOfFormat(unit, n, fPlus, separators, justify);
    AmountDigitsValue(unit, n);
    var digits := AmountDigits(unit, n);
    Pow10Of18();
    if |digits| <= 18 {
      Pow10Monotone(|digits|, 18);
      assert false;
    }
  }

  /** MAX_MONEY is a valid amount that the guarded parse cannot read back,
      while the unguarded one can. */
  lemma MaxMoneyNotParsed()
    ensures MoneyRange(MAX_MONEY)
    ensures ParseAsWritten(BTB, FormatSpec(BTB, MAX_MONEY, false, NEVER, false)) == None
    ensures Parse(BTB, FormatSpec(BTB, MAX_MONEY, false, NEVER, false)) == Some(MAX_MONEY)
  {
    ParseAsWrittenRefusesLarge(BTB, MAX_MONEY, false, NEVER, false);
    ParseOfFormat(BTB, MAX_MONEY, false, NEVER, false);
  }

  // ---------------------------------------------------------------------
  // Privacy
  // ---------------------------------------------------------------------

  /** formatWithPrivacy: the justified amount, or in privacy mode the
      justified zero with every '0' masked as '#', then the unit symbol. */
  function FormatWithPrivacy(unit: Unit, amount: int64, separators: SeparatorStyle, privacy: bool): string
    requires amount >= 0
  {
    var value :=
      if privacy then Replace(FormatSpec(unit, 0, false, separators, true), '0', '#')
      else FormatSpec(unit, amount, false, separators, true);
    value + " " + ShortName(unit)
  }

  /** The characters the justified zero amount is written with. */
  const ZERO_CHARS: set<char> := {'0', ' ', THIN_SP, '.'}

  lemma CharsOfAppend(a: string, b: string, cs: set<char>)
    requires CharsIn(a, cs)
    requires CharsIn(b, cs)
    ensures CharsIn(a + b, cs)
  {
  }

  lemma FractionTextOfZeroChars(unit: Unit)
    ensures CharsIn(FractionText(unit, "0"), ZERO_CHARS)
  {
    var ft := FractionText(unit, "0");
    if Decimals(unit) > 0 {
      var fr := RightJustified("0", Decimals(unit), '0');
      assert forall i :: 0 <= i < |fr| ==> fr[i] == '0';
      assert ft == "." + fr;
    } else {
      assert ft == "";
    }
  }

  /** The space and the unit symbol after the value hold no digit. */
  lemma SymbolTailHasNoDigit(unit: Unit)
    ensures var tail := " " + ShortName(unit);
            forall i :: 0 <= i < |tail| ==> !IsDigit(tail[i]) && tail[i] != '0'
  {
    var tail := " " + ShortName(unit);
    forall i | 0 <= i < |tail|
      ensures !IsDigit(tail[i]) && tail[i] != '0'
    {
      if i > 0 {
        assert tail[i] == ShortName(unit)[i - 1];
      }
    }
  }

  /** The text shown is the value followed by a space and the unit symbol. */
  lemma PrivacyParts(unit: Unit, amount: int64, separators: SeparatorStyle, privacy: bool)
    requires amount >= 0
    ensures FormatWithPrivacy(unit, amount, separators, privacy)
            == (if privacy then Replace(FormatSpec(unit, 0, false, separators, true), '0', '#')
                else FormatSpec(unit, amount, false, separators, true)) + (" " + ShortName(unit))
  {
    var value :=
      if privacy then Replace(FormatSpec(unit, 0, false, separators, true), '0', '#')
      else FormatSpec(unit, amount, false, separators, true);
    AppendAssoc(value, " ", ShortName(unit));
  }

  /** The zero amount is written with no digit other than '0'. */
  lemma ZeroFormatChars(unit: Unit, separators: SeparatorStyle)
    ensures CharsIn(FormatSpec(unit, 0, false, separators, true), ZERO_CHARS)
  {
    ZeroLayout(unit, separators);
    ZeroPartsChars(unit, separators);
  }

  lemma ZeroPartsChars(unit: Unit, separators: SeparatorStyle)
    ensures CharsIn(QuotientText(unit, "0", separators, true) + FractionText(unit, "0"), ZERO_CHARS)
  {
    var t, ft := QuotientText(unit, "0", separators, true), FractionText(unit, "0");
    QuotientTextChars(unit, "0", separators, true, ZERO_CHARS);
    FractionTextOfZeroChars(unit);
    CharsOfAppend(t, ft, ZERO_CHARS);
  }

  /** Zero is laid out from the digit strings "0" and "0", unsigned. */
  lemma ZeroLayout(unit: Unit, separators: SeparatorStyle)
    ensures FormatSpec(unit, 0, false, separators, true)
            == QuotientText(unit, "0", separators, true) + FractionText(unit, "0")
  {
    var f := Factor(unit) as nat;
    assert Abs(0) == 0 && 0 / f == 0 && 0 % f == 0;
    assert NumberToString(0) == "0";
    assert SignText(0, false) == "";
    var t := QuotientText(unit, "0", separators, true);
    assert "" + t == t;
  }

  /** Masking the zeros of such a text and appending a digit-free tail leaves no digit. */
  lemma MaskedZerosHaveNoDigit(z: string, tail: string)
    requires CharsIn(z, ZERO_CHARS)
    requires forall i :: 0 <= i < |tail| ==> !IsDigit(tail[i])
    ensures var s := Replace(z, '0', '#') + tail;
            forall i :: 0 <= i < |s| ==> !IsDigit(s[i])
  {
    var m := Replace(z, '0', '#');
    assert forall i :: 0 <= i < |m| ==> !IsDigit(m[i]);
  }

  /** Masking distributes over a tail that holds no '0'. */
  lemma ReplaceZerosBeforeTail(z: string, tail: string)
    requires forall i :: 0 <= i < |tail| ==> tail[i] != '0'
    ensures Replace(z + tail, '0', '#') == Replace(z, '0', '#') + tail
  {
    var r, s := Replace(z + tail, '0', '#'), Replace(z, '0', '#') + tail;
    assert forall i :: 0 <= i < |r| ==> r[i] == s[i];
  }

  /** In privacy mode the text does not depend on the amount and shows no
      digit at all: it is the text of zero with its zeros masked. */
  lemma PrivacyHidesAmount(unit: Unit, a: int64, b: int64, separators: SeparatorStyle)
    requires a >= 0 && b >= 0
    ensures FormatWithPrivacy(unit, a, separators, true) == FormatWithPrivacy(unit, b, separators, true)
    ensures var s := FormatWithPrivacy(unit, a, separators, true);
            forall i :: 0 <= i < |s| ==> !IsDigit(s[i])
    ensures FormatWithPrivacy(unit, a, separators, true)
            == Replace(FormatWithPrivacy(unit, 0, separators, false), '0', '#')
  {
    var z := FormatSpec(unit, 0, false, separators, true);
    var m := Replace(z, '0', '#');
    var tail := " " + ShortName(unit);
    SymbolTailHasNoDigit(unit);
    PrivacyParts(unit, a, separators, true);
    PrivacyParts(unit, b, separators, true);
    PrivacyParts(unit, 0, separators, false);
    ZeroFormatChars(unit, separators);
    MaskedZerosHaveNoDigit(z, tail);
    ReplaceZerosBeforeTail(z, tail);
  }

  /** Outside privacy mode the text before the unit symbol reads back as the amount. */
  lemma PrivacyOffShowsAmount(unit: Unit, a: int64, separators: SeparatorStyle)
    requires a >= 0
    ensures var s := FormatWithPrivacy(unit, a, separators, false);
            |s| > |ShortName(unit)| && Parse(unit, s[..|s| - |ShortName(unit)| - 1]) == Some(a)
  {
    var v := FormatSpec(unit, a, false, separators, true);
    var s := FormatWithPrivacy(unit, a, separators, false);
    assert s[..|s| - |ShortName(unit)| - 1] == v;
    ParseOfFormat(unit, a, false, separators, true);
  }
}
