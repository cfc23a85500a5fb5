/** The QString operations the unit formatter relies on, over strings of
    characters: decimal rendering (QString::number) and reading
    (QString::toLongLong), padding (rightJustified, leftJustified) and
    splitting at a separator (split). */
module QtString {
  import opened Ints

  datatype Option<T> = None | Some(value: T)

  function Pow10(k: nat): (r: nat)
    ensures r >= 1
  {
    if k == 0 then 1 else 10 * Pow10(k - 1)
  }

  predicate IsDigit(c: char)
  {
    '0' <= c <= '9'
  }

  predicate AllDigits(s: string)
  {
    forall i :: 0 <= i < |s| ==> IsDigit(s[i])
  }

  function DigitChar(d: nat): (c: char)
    requires d < 10
    ensures IsDigit(c) && DigitValue(c) == d
  {
    (d + '0' as int) as char
  }

  function DigitValue(c: char): (d: nat)
    requires IsDigit(c)
    ensures d < 10
  {
    c as int - '0' as int
  }

  /** The number a string of decimal digits stands for. */
  function DigitsValue(s: string): (v: nat)
    requires AllDigits(s)
    ensures v < Pow10(|s|)
  {
    if |s| == 0 then 0 else DigitsValue(s[..|s| - 1]) * 10 + DigitValue(s[|s| - 1])
  }

  /** QString::number for a non-negative value: its decimal digits, most
      significant first, with no leading zero. */
  function NumberToString(n: nat): (s: string)
    ensures |s| >= 1 && AllDigits(s)
    ensures |s| > 1 ==> s[0] != '0'
  {
    if n < 10 then [DigitChar(n)] else NumberToString(n / 10) + [DigitChar(n % 10)]
  }

  /** QString::number for any integer: a '-' before the digits of a negative one. */
  function Number(v: int): (s: string)
    ensures v >= 0 ==> s == NumberToString(v)
    ensures v < 0 ==> |s| >= 2 && s[0] == '-' && s[1..] == NumberToString(-v)
  {
    if v < 0 then "-" + NumberToString(-v) else NumberToString(v)
  }

  /** Reading back what NumberToString wrote gives the number. */
  lemma {:induction false} NumberToStringValue(n: nat)
    ensures DigitsValue(NumberToString(n)) == n
  {
    if n >= 10 {
      NumberToStringValue(n / 10);
      var s := NumberToString(n);
      assert s[..|s| - 1] == NumberToString(n / 10);
    }
  }

  /** NumberToString(n) has at most k digits exactly when n < 10^k. */
  lemma {:induction false} NumberToStringLength(n: nat, k: nat)
    requires k >= 1
    ensures |NumberToString(n)| <= k <==> n < Pow10(k)
  {
    if n >= 10 {
      if k == 1 {
        assert Pow10(1) == 10;
        assert |NumberToString(n)| >= 2;
      } else {
        NumberToStringLength(n / 10, k - 1);
        assert n < Pow10(k) <==> n / 10 < Pow10(k - 1);
      }
    } else {
      assert Pow10(1) == 10;
      Pow10Monotone(1, k);
    }
  }

  lemma Pow10Monotone(a: nat, b: nat)
    requires a <= b
    ensures Pow10(a) <= Pow10(b)
    decreases b
  {
    if a < b {
      Pow10Monotone(a, b - 1);
    }
  }

  lemma Pow10Add(a: nat, b: nat)
    ensures Pow10(a + b) == Pow10(a) * Pow10(b)
    decreases b
  {
    if b > 0 {
      Pow10Add(a, b - 1);
      MulAssoc(Pow10(a), 10, Pow10(b - 1));
    }
  }

  /** Digits written one after the other: the first string's value shifted
      by the second string's length. */
  lemma {:induction false} DigitsValueAppend(a: string, b: string)
    requires AllDigits(a) && AllDigits(b)
    ensures AllDigits(a + b)
    ensures DigitsValue(a + b) == DigitsValue(a) * Pow10(|b|) + DigitsValue(b)
    decreases |b|
  {
    if |b| > 0 {
      var b' := b[..|b| - 1];
      assert (a + b)[..|a + b| - 1] == a + b';
      DigitsValueAppend(a, b');
      MulAssoc(DigitsValue(a), Pow10(|b'|), 10);
    } else {
      assert a + b == a;
    }
  }

  /** Leading zeros do not change the value. */
  lemma {:induction false} DigitsValueZeros(k: nat)
    ensures AllDigits(Repeat('0', k)) && DigitsValue(Repeat('0', k)) == 0
  {
    if k > 0 {
      DigitsValueZeros(k - 1);
      assert Repeat('0', k)[..k - 1] == Repeat('0', k - 1);
    }
  }

  /** k copies of c. */
  function Repeat(c: char, k: nat): (r: string)
    ensures |r| == k && forall i :: 0 <= i < k ==> r[i] == c
  {
    if k == 0 then "" else [c] + Repeat(c, k - 1)
  }

  /** QString::rightJustified with truncation off: the string padded on the
      left with fill up to width characters, or unchanged if already as long. */
  function RightJustified(s: string, width: int, fill: char): (r: string)
    ensures |r| == if |s| >= width then |s| else width
    ensures r[|r| - |s|..] == s
    ensures forall i :: 0 <= i < |r| - |s| ==> r[i] == fill
  {
    if |s| >= width then s else Repeat(fill, width - |s|) + s
  }

  /** QString::leftJustified with truncation off: padded on the right. */
  function LeftJustified(s: string, width: int, fill: char): (r: string)
    ensures |r| == if |s| >= width then |s| else width
    ensures r[..|s|] == s
    ensures forall i :: |s| <= i < |r| ==> r[i] == fill
  {
    if |s| >= width then s else s + Repeat(fill, width - |s|)
  }

  /** QString::replace of one character by another. */
  function Replace(s: string, before: char, after: char): (r: string)
    ensures |r| == |s|
    ensures forall i :: 0 <= i < |s| ==> r[i] == if s[i] == before then after else s[i]
  {
    if |s| == 0 then "" else [if s[0] == before then after else s[0]] + Replace(s[1..], before, after)
  }

  /** QString::toLongLong in base 10: an optional sign and at least one
      digit, with a value an int64 can hold; None where Qt reports !ok. */
  function ToLongLong(s: string): (r: Option<int64>)
  {
    if |s| > 0 && (s[0] == '-' || s[0] == '+') then
      var body := s[1..];
      if |body| > 0 && AllDigits(body) then
        var d: int := DigitsValue(body);
        var v := if s[0] == '-' then -d else d;
        if INT64_MIN <= v <= INT64_MAX then Some(v) else None
      else None
    else if |s| > 0 && AllDigits(s) && DigitsValue(s) <= INT64_MAX then
      Some(DigitsValue(s))
    else
      None
  }

  lemma Pow10Of18()
    ensures Pow10(18) == 1_000_000_000_000_000_000
    ensures Pow10(17) == 100_000_000_000_000_000
  {
    assert Pow10(3) == 1000;
    Pow10Add(3, 3);
    Pow10Add(6, 6);
    Pow10Add(12, 6);
  }

  /** A string of at most 18 digits stands for a value an int64 holds either way round. */
  lemma EighteenDigitsFit(digits: string)
    requires AllDigits(digits) && |digits| <= 18
    ensures DigitsValue(digits) < 1_000_000_000_000_000_000
  {
    Pow10Monotone(|digits|, 18);
    Pow10Of18();
  }

  /** toLongLong reads back a sign and digits whenever the value fits in an int64. */
  lemma ToLongLongOfDigits(sign: string, digits: string)
    requires sign == "" || sign == "-" || sign == "+"
    requires |digits| >= 1 && AllDigits(digits)
    requires DigitsValue(digits) <= if sign == "-" then -INT64_MIN else INT64_MAX
    ensures var d: int := DigitsValue(digits);
            ToLongLong(sign + digits) == Some(if sign == "-" then -d else d)
  {
    if sign == "" {
      assert sign + digits == digits;
      ToLongLongUnsigned(digits);
    } else {
      assert sign + digits == [sign[0]] + digits;
      ToLongLongSigned(sign[0], digits);
    }
  }

  lemma ToLongLongUnsigned(digits: string)
    requires |digits| >= 1 && AllDigits(digits) && DigitsValue(digits) <= INT64_MAX
    ensures ToLongLong(digits) == Some(DigitsValue(digits))
  {
    assert IsDigit(digits[0]);
  }

  lemma ToLongLongSigned(c: char, digits: string)
    requires c == '-' || c == '+'
    requires |digits| >= 1 && AllDigits(digits)
    requires DigitsValue(digits) <= if c == '-' then -INT64_MIN else INT64_MAX
    ensures var d: int := DigitsValue(digits);
            ToLongLong([c] + digits) == Some(if c == '-' then -d else d)
  {
    assert ([c] + digits)[1..] == digits;
  }

  /** The signs toLongLong accepts in front of the digits. */
  predicate IsSign(sign: string)
  {
    sign == "" || sign == "-" || sign == "+"
  }

  /** The value a sign and a digit value stand for. */
  /** The int64 that a sign and a digit value m stand for, or None when
      the signed value lies outside the int64 range. */
  function SignedInt64(sign: string, m: nat): Option<int64>
  {
    var v := SignedValue(sign, m);
    if INT64_MIN <= v <= INT64_MAX then Some(v) else None
  }

  function SignedValue(sign: string, d: nat): int
  {
    if sign == "-" then -(d as int) else d as int
  }

  /** Conversely, whatever toLongLong accepts is a sign and at least one
      digit, and the value returned is theirs. */
  lemma ToLongLongSound(s: string, v: int64) returns (sign: string, digits: string)
    requires ToLongLong(s) == Some(v)
    ensures s == sign + digits && IsSign(sign)
    ensures |digits| >= 1 && AllDigits(digits)
    ensures v == SignedValue(sign, DigitsValue(digits))
  {
    if |s| > 0 && (s[0] == '-' || s[0] == '+') {
      sign, digits := s[..1], s[1..];
      assert s == sign + digits;
    } else {
      sign, digits := "", s;
      assert s == sign + digits;
    }
  }

  /** A sign and digits whose value is outside int64 are refused. */
  lemma ToLongLongRefusesOutOfRange(sign: string, digits: string)
    requires IsSign(sign) && |digits| >= 1 && AllDigits(digits)
    requires !(INT64_MIN <= SignedValue(sign, DigitsValue(digits)) <= INT64_MAX)
    ensures ToLongLong(sign + digits) == None
  {
    if sign == "" {
      assert sign + digits == digits;
      assert IsDigit(digits[0]);
    } else {
      assert (sign + digits)[0] == sign[0] && (sign + digits)[1..] == digits;
    }
  }

  /** toLongLong on a sign and digits, both ways: their value when it fits
      in an int64, a refusal otherwise. */
  lemma ToLongLongOfSignedDigits(sign: string, digits: string)
    requires IsSign(sign) && |digits| >= 1 && AllDigits(digits)
    ensures ToLongLong(sign + digits) == SignedInt64(sign, DigitsValue(digits))
  {
    var v := SignedValue(sign, DigitsValue(digits));
    if INT64_MIN <= v <= INT64_MAX {
      ToLongLongOfDigits(sign, digits);
    } else {
      ToLongLongRefusesOutOfRange(sign, digits);
    }
  }

  /** The number of occurrences of c in s. */
  function Count(s: string, c: char): nat
  {
    if |s| == 0 then 0 else (if s[0] == c then 1 else 0) + Count(s[1..], c)
  }

  /** The parts joined back with the separator between them. */
  function Join(parts: seq<string>, sep: char): string
    requires |parts| >= 1
  {
    if |parts| == 1 then parts[0] else parts[0] + [sep] + Join(parts[1..], sep)
  }

  /** QString::split keeping empty parts: the pieces between separators,
      one more than there are separators. */
  function Split(s: string, sep: char): (parts: seq<string>)
    ensures |parts| == Count(s, sep) + 1
  {
    if |s| == 0 then
      [""]
    else
      var rest := Split(s[1..], sep);
      if s[0] == sep then [""] + rest else [[s[0]] + rest[0]] + rest[1..]
  }

  /** No part holds the separator, and joining the parts with it gives back
      the string. */
  lemma {:induction false} SplitJoin(s: string, sep: char)
    ensures forall i :: 0 <= i < |Split(s, sep)| ==> sep !in Split(s, sep)[i]
    ensures Join(Split(s, sep), sep) == s
  {
    if |s| > 0 {
      var rest := Split(s[1..], sep);
      SplitJoin(s[1..], sep);
      if s[0] == sep {
        assert [s[0]] + s[1..] == s;
        assert Split(s, sep)[1..] == rest;
      } else {
        var parts := Split(s, sep);
        assert parts == [[s[0]] + rest[0]] + rest[1..];
        assert sep !in parts[0] by {
          assert forall k :: 0 <= k < |parts[0]| ==> parts[0][k] != sep by {
            assert parts[0] == [s[0]] + rest[0];
          }
        }
        JoinReplaceFirst(rest, [s[0]] + rest[0], sep);
        assert [s[0]] + s[1..] == s;
      }
    }
  }

  lemma JoinStartsWithFirst(parts: seq<string>, sep: char)
    requires |parts| >= 1
    ensures |Join(parts, sep)| >= |parts[0]| && Join(parts, sep)[..|parts[0]|] == parts[0]
  {
  }

  /** Replacing the first part by a longer one that ends with it. */
  lemma JoinReplaceFirst(parts: seq<string>, first: string, sep: char)
    requires |parts| >= 1 && |first| == |parts[0]| + 1 && first[1..] == parts[0]
    ensures Join([first] + parts[1..], sep) == [first[0]] + Join(parts, sep)
  {
    var q := [first] + parts[1..];
    if |parts| == 1 {
      assert q == [first];
      assert first == [first[0]] + first[1..];
    } else {
      assert q[1..] == parts[1..];
      assert first == [first[0]] + parts[0];
    }
  }

  /** A string without the separator splits into itself alone. */
  lemma {:induction false} SplitWithoutSeparator(a: string, sep: char)
    requires sep !in a
    ensures Split(a, sep) == [a]
  {
    if |a| > 0 {
      assert a == [a[0]] + a[1..];
      SplitWithoutSeparator(a[1..], sep);
    }
  }

  /** A separator-free part followed by a separator splits off as the first part. */
  lemma {:induction false} SplitFirstPart(a: string, rest: string, sep: char)
    requires sep !in a
    ensures Split(a + [sep] + rest, sep) == [a] + Split(rest, sep)
  {
    var s := a + [sep] + rest;
    if |a| == 0 {
      assert s[1..] == rest;
    } else {
      assert a == [a[0]] + a[1..];
      assert s[1..] == a[1..] + [sep] + rest;
      SplitFirstPart(a[1..], rest, sep);
    }
  }

  /** Two separator-free strings joined by one separator split back into the two. */
  lemma SplitInverse(a: string, b: string, sep: char)
    requires sep !in a && sep !in b
    ensures Split(a + [sep] + b, sep) == [a, b]
  {
    SplitFirstPart(a, b, sep);
    SplitWithoutSeparator(b, sep);
  }
}
