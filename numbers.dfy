/** The text-to-number conversions behind pandas' int and float casts of a
    column of Python strings, which apply Python's `int(text)` and `float(text)`
    to every cell. A float is kept as the exact decimal the text denotes
    instead of the nearest binary double. */
module Numbers {
  import opened Strings

  datatype Option<T> = None | Some(value: T)

  /** A parsed float: `Finite(neg, m, e)` is (-1)^neg * m * 10^e; the sign is
      kept apart from `m` so that "-0" stays distinct, as in IEEE arithmetic. */
  datatype Number = Finite(negative: bool, mantissa: nat, exponent: int) | Infinity(negative: bool) | NaN

  predicate IsDigit(c: char) { '0' <= c <= '9' }

  predicate AllDigits(s: string) { forall i :: 0 <= i < |s| ==> IsDigit(s[i]) }

  /** The value of a string of decimal digits, most significant first. */
  function DigitsValue(s: string): nat
    requires AllDigits(s)
  {
    if s == [] then 0 else DigitsValue(s[..|s| - 1]) * 10 + (s[|s| - 1] as int - '0' as int)
  }

  function DigitChar(d: nat): (c: char)
    requires d < 10
    ensures IsDigit(c) && c as int - '0' as int == d
  {
    ('0' as int + d) as char
  }

  /** The decimal numeral of `n` without leading zeros. */
  function NatToString(n: nat): (s: string)
    ensures |s| >= 1 && AllDigits(s)
    ensures |s| > 1 ==> s[0] != '0'
  {
    if n < 10 then [DigitChar(n)] else NatToString(n / 10) + [DigitChar(n % 10)]
  }

  lemma {:induction false} NatToStringValue(n: nat)
    ensures DigitsValue(NatToString(n)) == n
  {
    if n >= 10 {
      var s := NatToString(n);
      assert s[..|s| - 1] == NatToString(n / 10);
      NatToStringValue(n / 10);
    }
  }

  /** The numeral of an integer, with a '-' for negative values. */
  function IntToString(n: int): string
  {
    if n < 0 then "-" + NatToString(-n) else NatToString(n)
  }

  /** Splits an optional leading '+' or '-' from `s`; the flag says whether it was '-'. */
  function SignOf(s: string): (bool, string)
  {
    if |s| > 0 && (s[0] == '+' || s[0] == '-') then (s[0] == '-', s[1..]) else (false, s)
  }

  /** An optional sign followed by one or more digits, as Python's `int` reads it. */
  function ParseSignedDigits(s: string): (r: Option<int>)
    ensures r.Some? <==> |SignOf(s).1| > 0 && AllDigits(SignOf(s).1)
  {
    var (negative, digits) := SignOf(s);
    if |digits| > 0 && AllDigits(digits) then
      Some(if negative then -(DigitsValue(digits) as int) else DigitsValue(digits))
    else None
  }

  /** Python's `int(s)` for a `str`: surrounding whitespace is ignored. */
  function ParseInt(s: string): (r: Option<int>)
    ensures r.Some? <==> |SignOf(StripSpace(s)).1| > 0 && AllDigits(SignOf(StripSpace(s)).1)
  {
    ParseSignedDigits(StripSpace(s))
  }

  /** No visible ASCII character (digits, signs, the point, letters) is whitespace. */
  lemma NotSpace(c: char)
    requires '!' <= c <= '~'
    ensures c !in Whitespace
  {
    assert forall i :: 0 <= i < |Whitespace| ==> Whitespace[i] <= ' ' || Whitespace[i] >= '\U{0085}';
  }

  /** `int` reads back every numeral `IntToString` writes, also when the text
      carries whitespace around it (a year header such as "2019 "). */
  lemma ParseIntRoundTrip(n: int, pad: string, tail: string)
    requires forall i :: 0 <= i < |pad| ==> pad[i] in Whitespace
    requires forall i :: 0 <= i < |tail| ==> tail[i] in Whitespace
    ensures ParseInt(pad + IntToString(n) + tail) == Some(n)
  {
    var text := IntToString(n);
    NumeralBare(n);
    StripPadded(pad, text, tail, Whitespace);
    SignedDigitsRoundTrip(n);
  }

  lemma NumeralBare(n: int)
    ensures Bare(IntToString(n), Whitespace)
  {
    var text := IntToString(n);
    var digits := NatToString(if n < 0 then -n else n);
    assert text[|text| - 1] == digits[|digits| - 1];
    NotSpace(text[0]);
    NotSpace(text[|text| - 1]);
  }

  lemma SignedDigitsRoundTrip(n: int)
    ensures ParseSignedDigits(IntToString(n)) == Some(n)
  {
    var text := IntToString(n);
    var digits := NatToString(if n < 0 then -n else n);
    NatToStringValue(if n < 0 then -n else n);
    if n < 0 {
      assert SignOf(text) == (true, digits);
    } else {
      assert SignOf(text) == (false, digits);
    }
  }

  /** The decimal part of Python's float syntax:
      digits ['.' digits] [('e' | 'E') sign? digits], with at least one digit
      before or after the point. Gives the mantissa and the power of ten. */
  function ParseDecimal(body: string): Option<(nat, int)>
  {
    var e := Find(body, "eE");
    ScaleMantissa(body[..e], if e < |body| then ParseSignedDigits(body[e + 1..]) else Some(0))
  }

  /** A mantissa digits ['.' digits] with at least one digit, read as one
      integer and scaled down by the number of digits after the point. */
  function ScaleMantissa(mantissa: string, exponent: Option<int>): Option<(nat, int)>
  {
    var d := Find(mantissa, ".");
    var whole := mantissa[..d];
    var fraction := if d < |mantissa| then mantissa[d + 1..] else "";
    if AllDigits(whole) && AllDigits(fraction) && |whole| + |fraction| > 0 && exponent.Some? then
      Some((DigitsValue(whole + fraction), exponent.value - |fraction|))
    else None
  }

  /** Python's `float(s)` for a `str`: surrounding whitespace, an optional sign,
      then a decimal numeral or, in any case, "inf", "infinity" or "nan". */
  function ParseFloat(s: string): (r: Option<Number>)
    ensures r.Some? <==> FloatText(s)
  {
    var signed := SignOf(StripSpace(s));
    UnsignedGrammar(signed.0, signed.1);
    ParseUnsigned(signed.0, signed.1)
  }

  /** The text after the sign: a special value in any case, or a decimal numeral. */
  function ParseUnsigned(negative: bool, body: string): Option<Number>
  {
    var lower := AsciiLower(body);
    if lower == "inf" || lower == "infinity" then Some(Infinity(negative))
    else if lower == "nan" then Some(NaN)
    else match ParseDecimal(body)
      case Some((m, e)) => Some(Finite(negative, m, e))
      case None => None
  }

  // ----- The texts `float` accepts -----

  /** A mantissa: digits with at most one point and at least one digit, as in
      "72", "72.", ".5" and "72.5". */
  ghost predicate MantissaText(m: string)
  {
    || (|m| > 0 && AllDigits(m))
    || (|m| > 1 && exists q :: 0 <= q < |m| && m[q] == '.' && AllDigits(m[..q]) && AllDigits(m[q + 1..]))
  }

  /** An exponent after its marker: one or more digits, with an optional sign in front. */
  predicate ExponentText(x: string)
  {
    || (|x| > 0 && AllDigits(x))
    || (|x| > 1 && (x[0] == '+' || x[0] == '-') && AllDigits(x[1..]))
  }

  /** A decimal numeral: a mantissa, optionally followed by 'e' or 'E' and an exponent. */
  ghost predicate DecimalText(b: string)
  {
    || MantissaText(b)
    || exists p :: 0 <= p < |b| && (b[p] == 'e' || b[p] == 'E') && MantissaText(b[..p]) && ExponentText(b[p + 1..])
  }

  /** The names of the special floats, in any mix of upper and lower case. */
  predicate SpecialWord(b: string)
  {
    AsciiLower(b) == "inf" || AsciiLower(b) == "infinity" || AsciiLower(b) == "nan"
  }

  /** The texts `float` accepts: whitespace around an optional sign and either a
      special name or a decimal numeral. Anything else makes the cast raise. */
  ghost predicate FloatText(s: string)
  {
    var body := SignOf(StripSpace(s)).1;
    SpecialWord(body) || DecimalText(body)
  }

  /** `Find` gives the first position holding a character of `cs`. */
  lemma FindAt(s: string, cs: string, p: nat)
    requires p <= |s| && (p < |s| ==> s[p] in cs)
    requires forall i :: 0 <= i < p ==> s[i] !in cs
    ensures Find(s, cs) == p
  {
  }

  /** No mantissa holds an exponent marker. */
  lemma MantissaNoMarker(m: string)
    requires MantissaText(m)
    ensures forall i :: 0 <= i < |m| ==> m[i] != 'e' && m[i] != 'E'
  {
    MantissaChars(m);
  }

  /** A decimal numeral holds only digits, the point, the markers and signs. */
  lemma DecimalChars(b: string)
    requires DecimalText(b)
    ensures forall i :: 0 <= i < |b| ==> IsDigit(b[i]) || b[i] in ".eE+-"
  {
    if !MantissaText(b) {
      var p :| 0 <= p < |b| && (b[p] == 'e' || b[p] == 'E') && MantissaText(b[..p]) && ExponentText(b[p + 1..]);
      MantissaChars(b[..p]);
      forall i | 0 <= i < |b| ensures IsDigit(b[i]) || b[i] in ".eE+-" {
        if i < p {
          assert b[i] == b[..p][i];
        } else if i > p {
          assert b[i] == b[p + 1..][i - p - 1];
        }
      }
    } else {
      MantissaChars(b);
    }
  }

  lemma MantissaChars(m: string)
    requires MantissaText(m)
    ensures forall i :: 0 <= i < |m| ==> IsDigit(m[i]) || m[i] == '.'
  {
    if !(|m| > 0 && AllDigits(m)) {
      var q :| 0 <= q < |m| && m[q] == '.' && AllDigits(m[..q]) && AllDigits(m[q + 1..]);
      forall i | 0 <= i < |m| ensures IsDigit(m[i]) || m[i] == '.' {
        if i < q {
          assert m[i] == m[..q][i];
        } else if i > q {
          assert m[i] == m[q + 1..][i - q - 1];
        }
      }
    }
  }

  /** The exponent `ParseSignedDigits` reads is the exponent syntax. */
  lemma ExponentGrammar(x: string)
    ensures ParseSignedDigits(x).Some? <==> ExponentText(x)
  {
  }

  /** `ScaleMantissa` reads exactly the mantissas. */
  lemma MantissaGrammar(m: string, x: int)
    ensures ScaleMantissa(m, Some(x)).Some? <==> MantissaText(m)
  {
    if ScaleMantissa(m, Some(x)).Some? {
      MantissaReadText(m, x);
    }
    if MantissaText(m) {
      if |m| > 0 && AllDigits(m) {
        MantissaWhole(m, x);
      } else {
        var q :| 0 <= q < |m| && m[q] == '.' && AllDigits(m[..q]) && AllDigits(m[q + 1..]);
        MantissaPointAt(m, q, x);
      }
    }
  }

  /** What `ScaleMantissa` reads is a mantissa. */
  lemma MantissaReadText(m: string, x: int)
    requires ScaleMantissa(m, Some(x)).Some?
    ensures MantissaText(m)
  {
    var d := Find(m, ".");
    if d == |m| {
      assert m[..d] == m;
    } else {
      assert |m| > 1 && m[d] == '.' && AllDigits(m[..d]) && AllDigits(m[d + 1..]);
    }
  }

  /** A mantissa with its point at `q` is read. */
  lemma MantissaPointAt(m: string, q: nat, x: int)
    requires |m| > 1 && q < |m| && m[q] == '.' && AllDigits(m[..q]) && AllDigits(m[q + 1..])
    ensures ScaleMantissa(m, Some(x)).Some?
  {
    forall i | 0 <= i < q ensures m[i] !in "." {
      assert m[i] == m[..q][i];
    }
    FindAt(m, ".", q);
  }

  /** `ParseDecimal` reads exactly the decimal numerals. */
  lemma DecimalGrammar(b: string)
    ensures ParseDecimal(b).Some? <==> DecimalText(b)
  {
    if ParseDecimal(b).Some? {
      DecimalReadText(b);
    }
    if DecimalText(b) {
      if MantissaText(b) {
        DecimalPlain(b);
      } else {
        var p :| 0 <= p < |b| && (b[p] == 'e' || b[p] == 'E') && MantissaText(b[..p]) && ExponentText(b[p + 1..]);
        DecimalMarked(b, p);
      }
    }
  }

  /** What `ParseDecimal` reads is a decimal numeral. */
  lemma DecimalReadText(b: string)
    requires ParseDecimal(b).Some?
    ensures DecimalText(b)
  {
    var e := Find(b, "eE");
    var exponent := if e < |b| then ParseSignedDigits(b[e + 1..]) else Some(0);
    assert ScaleMantissa(b[..e], exponent).Some?;
    MantissaGrammar(b[..e], exponent.value);
    if e == |b| {
      assert b[..e] == b;
    } else {
      ExponentGrammar(b[e + 1..]);
      assert (b[e] == 'e' || b[e] == 'E') && MantissaText(b[..e]) && ExponentText(b[e + 1..]);
    }
  }

  /** A mantissa alone is read. */
  lemma DecimalPlain(b: string)
    requires MantissaText(b)
    ensures ParseDecimal(b).Some?
  {
    MantissaNoMarker(b);
    DecimalWithoutExponent(b);
    MantissaGrammar(b, 0);
  }

  /** A mantissa, a marker at `p` and an exponent are read. */
  lemma DecimalMarked(b: string, p: nat)
    requires p < |b| && (b[p] == 'e' || b[p] == 'E')
    requires MantissaText(b[..p]) && ExponentText(b[p + 1..])
    ensures ParseDecimal(b).Some?
  {
    var mantissa, exponent := b[..p], b[p + 1..];
    MantissaNoMarker(mantissa);
    assert b == mantissa + [b[p]] + exponent;
    DecimalWithExponent(mantissa, b[p], exponent);
    ExponentGrammar(exponent);
    MantissaGrammar(mantissa, ParseSignedDigits(exponent).value);
  }

  /** The text after the sign is read exactly when it is a special name or a decimal numeral. */
  lemma UnsignedGrammar(negative: bool, body: string)
    ensures ParseUnsigned(negative, body).Some? <==> SpecialWord(body) || DecimalText(body)
  {
    DecimalGrammar(body);
  }

  // ----- What `int` and `float` read -----

  /** An optional sign in front of a text that does not start with one is split off again. */
  lemma SignedText(sign: string, body: string)
    requires sign == "" || sign == "+" || sign == "-"
    requires |body| > 0 && body[0] != '+' && body[0] != '-'
    ensures SignOf(sign + body) == (sign == "-", body)
  {
    if sign != "" {
      assert (sign + body)[1..] == body;
    } else {
      assert sign + body == body;
    }
  }

  /** A sign in front keeps a text free of whitespace at its ends. */
  lemma SignedBare(sign: string, body: string)
    requires sign == "" || sign == "+" || sign == "-"
    requires |body| > 0 && Bare(body, Whitespace)
    ensures Bare(sign + body, Whitespace)
  {
    var text := sign + body;
    assert text[|text| - 1] == body[|body| - 1];
    if sign != "" {
      assert text[0] == sign[0];
      NotSpace(text[0]);
    } else {
      assert text == body;
    }
  }

  /** The value of digits behind an optional sign. */
  function SignedValue(sign: string, digits: string): int
    requires AllDigits(digits)
  {
    if sign == "-" then -(DigitsValue(digits) as int) else DigitsValue(digits)
  }

  lemma SignedDigitsValue(sign: string, digits: string)
    requires sign == "" || sign == "+" || sign == "-"
    requires |digits| > 0 && AllDigits(digits)
    ensures ParseSignedDigits(sign + digits) == Some(SignedValue(sign, digits))
  {
    SignedText(sign, digits);
  }

  /** `int` reads an optional sign and digits, leading zeros included, with
      whitespace around them. */
  lemma ParseIntSigned(pad: string, sign: string, digits: string, tail: string)
    requires forall i :: 0 <= i < |pad| ==> pad[i] in Whitespace
    requires forall i :: 0 <= i < |tail| ==> tail[i] in Whitespace
    requires sign == "" || sign == "+" || sign == "-"
    requires |digits| > 0 && AllDigits(digits)
    ensures ParseInt(pad + (sign + digits) + tail) == Some(SignedValue(sign, digits))
  {
    var text := sign + digits;
    assert Bare(text, Whitespace) by {
      NotSpace(digits[0]);
      NotSpace(digits[|digits| - 1]);
      SignedBare(sign, digits);
    }
    assert StripSpace(pad + text + tail) == text by {
      StripPadded(pad, text, tail, Whitespace);
    }
    SignedDigitsValue(sign, digits);
  }

  /** `float` ignores the whitespace around its text and reads an optional sign
      before the rest. */
  lemma ParseFloatSigned(pad: string, sign: string, body: string, tail: string)
    requires forall i :: 0 <= i < |pad| ==> pad[i] in Whitespace
    requires forall i :: 0 <= i < |tail| ==> tail[i] in Whitespace
    requires sign == "" || sign == "+" || sign == "-"
    requires |body| > 0 && Bare(body, Whitespace) && body[0] != '+' && body[0] != '-'
    ensures ParseFloat(pad + (sign + body) + tail) == ParseUnsigned(sign == "-", body)
  {
    var text := sign + body;
    assert Bare(text, Whitespace) by {
      SignedBare(sign, body);
    }
    assert StripSpace(pad + text + tail) == text by {
      StripPadded(pad, text, tail, Whitespace);
    }
    SignedText(sign, body);
  }

  /** "inf", "infinity" and "nan", in any mix of upper and lower case, with an
      optional sign and whitespace around them, are the special floats; the sign
      of "nan" is dropped. */
  lemma ParseFloatSpecial(pad: string, sign: string, word: string, tail: string)
    requires forall i :: 0 <= i < |pad| ==> pad[i] in Whitespace
    requires forall i :: 0 <= i < |tail| ==> tail[i] in Whitespace
    requires sign == "" || sign == "+" || sign == "-"
    requires AsciiLower(word) == "inf" || AsciiLower(word) == "infinity" || AsciiLower(word) == "nan"
    ensures ParseFloat(pad + (sign + word) + tail) == if AsciiLower(word) == "nan" then Some(NaN) else Some(Infinity(sign == "-"))
  {
    assert |word| > 0 && Bare(word, Whitespace) && word[0] != '+' && word[0] != '-' by {
      SpecialBare(word);
    }
    ParseFloatSigned(pad, sign, word, tail);
  }

  /** The special names start and end with a letter. */
  lemma SpecialBare(word: string)
    requires AsciiLower(word) == "inf" || AsciiLower(word) == "infinity" || AsciiLower(word) == "nan"
    ensures |word| > 0 && Bare(word, Whitespace) && word[0] != '+' && word[0] != '-'
  {
    var lower := AsciiLower(word);
    assert |lower| > 0 && 'a' <= lower[0] <= 'z' && 'a' <= lower[|lower| - 1] <= 'z';
    LetterEnds(word);
  }

  /** A text whose lower-case form starts and ends with a letter has no
      whitespace or sign at its ends. */
  lemma LetterEnds(word: string)
    requires |word| > 0
    requires 'a' <= AsciiLower(word)[0] <= 'z' && 'a' <= AsciiLower(word)[|word| - 1] <= 'z'
    ensures Bare(word, Whitespace) && word[0] != '+' && word[0] != '-'
  {
    var n := |word|;
    NotSpace(word[0]);
    NotSpace(word[n - 1]);
  }

  /** An integer numeral, signed and padded, is a float with exponent zero. */
  lemma ParseFloatWhole(pad: string, sign: string, digits: string, tail: string)
    requires forall i :: 0 <= i < |pad| ==> pad[i] in Whitespace
    requires forall i :: 0 <= i < |tail| ==> tail[i] in Whitespace
    requires sign == "" || sign == "+" || sign == "-"
    requires |digits| > 0 && AllDigits(digits)
    ensures ParseFloat(pad + (sign + digits) + tail) == Some(Finite(sign == "-", DigitsValue(digits), 0))
  {
    assert Bare(digits, Whitespace) by {
      NotSpace(digits[0]);
      NotSpace(digits[|digits| - 1]);
    }
    ParseFloatSigned(pad, sign, digits, tail);
    WholeUnsigned(sign == "-", digits);
  }

  lemma WholeUnsigned(negative: bool, digits: string)
    requires |digits| > 0 && AllDigits(digits)
    ensures ParseUnsigned(negative, digits) == Some(Finite(negative, DigitsValue(digits), 0))
  {
    assert ParseDecimal(digits) == Some((DigitsValue(digits), 0)) by {
      DecimalWithoutExponent(digits);
      MantissaWhole(digits, 0);
    }
    UnsignedDecimal(negative, digits, DigitsValue(digits), 0);
  }

  /** A numeral in scientific notation starts with a digit or a point and ends with a digit. */
  lemma ScientificBare(whole: string, fraction: string, marker: char, esign: string, edigits: string, body: string)
    requires AllDigits(whole) && AllDigits(fraction) && |edigits| > 0 && AllDigits(edigits)
    requires body == whole + "." + fraction + [marker] + (esign + edigits)
    ensures |body| > 0 && Bare(body, Whitespace) && body[0] != '+' && body[0] != '-'
  {
    assert body[0] == if whole == [] then '.' else whole[0];
    assert body[|body| - 1] == edigits[|edigits| - 1];
    NotSpace(body[0]);
    NotSpace(body[|body| - 1]);
  }

  /** A numeral in scientific notation, after its sign: "W.F", then 'e' or 'E',
      then an exponent X with an optional sign. It is the digits of W and F read
      as one integer, times ten to X minus the length of F; one of W and F may be
      empty. ParseFloatSigned, whose precondition ScientificBare meets, carries
      this over to the padded, signed text. */
  lemma ScientificUnsigned(negative: bool, body: string, whole: string, fraction: string, marker: char, exponent: string, x: int)
    requires body == whole + "." + fraction + [marker] + exponent
    requires AllDigits(whole) && AllDigits(fraction) && |whole| + |fraction| > 0
    requires marker == 'e' || marker == 'E'
    requires ParseSignedDigits(exponent) == Some(x)
    ensures ParseUnsigned(negative, body) == Some(Finite(negative, DigitsValue(whole + fraction), x - |fraction|))
  {
    var mantissa := whole + "." + fraction;
    assert ParseDecimal(body) == Some((DigitsValue(whole + fraction), x - |fraction|)) by {
      NoExponent(whole, fraction);
      DecimalWithExponent(mantissa, marker, exponent);
      MantissaPoint(whole, fraction, x);
    }
    assert body[0] == if whole == [] then '.' else whole[0];
    UnsignedDecimal(negative, body, DigitsValue(whole + fraction), x - |fraction|);
  }

  /** "De" then an exponent X, with no point: the digits of D times ten to X. */
  lemma ScientificWholeUnsigned(negative: bool, body: string, digits: string, marker: char, exponent: string, x: int)
    requires body == digits + [marker] + exponent
    requires |digits| > 0 && AllDigits(digits)
    requires marker == 'e' || marker == 'E'
    requires ParseSignedDigits(exponent) == Some(x)
    ensures ParseUnsigned(negative, body) == Some(Finite(negative, DigitsValue(digits), x))
  {
    assert ParseDecimal(body) == Some((DigitsValue(digits), x)) by {
      DecimalWithExponent(digits, marker, exponent);
      MantissaWhole(digits, x);
    }
    assert body[0] == digits[0];
    UnsignedDecimal(negative, body, DigitsValue(digits), x);
  }

  /** A text that starts with a digit or a point is read as a decimal numeral. */
  lemma UnsignedDecimal(negative: bool, body: string, m: nat, e: int)
    requires |body| > 0 && (IsDigit(body[0]) || body[0] == '.') && ParseDecimal(body) == Some((m, e))
    ensures ParseUnsigned(negative, body) == Some(Finite(negative, m, e))
  {
    NotSpecial(body);
  }

  /** Without an exponent marker the whole text is the mantissa, with exponent zero. */
  lemma DecimalWithoutExponent(mantissa: string)
    requires forall i :: 0 <= i < |mantissa| ==> mantissa[i] !in "eE"
    ensures ParseDecimal(mantissa) == ScaleMantissa(mantissa, Some(0))
  {
    FindNone(mantissa, "eE");
    assert mantissa[..|mantissa|] == mantissa;
  }

  /** The first exponent marker splits the mantissa from the exponent text. */
  lemma DecimalWithExponent(mantissa: string, marker: char, exponent: string)
    requires forall i :: 0 <= i < |mantissa| ==> mantissa[i] !in "eE"
    requires marker == 'e' || marker == 'E'
    ensures ParseDecimal(mantissa + [marker] + exponent) == ScaleMantissa(mantissa, ParseSignedDigits(exponent))
  {
    var s := mantissa + [marker] + exponent;
    FindNone(mantissa, "eE");
    FindAfter(mantissa, marker, exponent, "eE");
    assert s[..|mantissa|] == mantissa;
    assert s[|mantissa| + 1..] == exponent;
  }

  /** "W.F" as a mantissa: the digits of W and F, scaled down by the length of F. */
  lemma MantissaPoint(whole: string, fraction: string, x: int)
    requires AllDigits(whole) && AllDigits(fraction) && |whole| + |fraction| > 0
    ensures ScaleMantissa(whole + "." + fraction, Some(x)) == Some((DigitsValue(whole + fraction), x - |fraction|))
  {
    var m := whole + "." + fraction;
    PointAt(whole, fraction);
    assert m[..|whole|] == whole;
    assert m[|whole| + 1..] == fraction;
  }

  /** Digits without a point as a mantissa: their value, unscaled. */
  lemma MantissaWhole(digits: string, x: int)
    requires |digits| > 0 && AllDigits(digits)
    ensures ScaleMantissa(digits, Some(x)) == Some((DigitsValue(digits), x))
  {
    FindNone(digits, ".");
    assert digits[..|digits|] == digits;
    assert digits + "" == digits;
  }

  /** A fixed-point numeral "W.F" denotes the digits of W and F read as one
      integer, scaled down by the length of F. */
  lemma ParseFloatFixedPoint(whole: string, fraction: string)
    requires |whole| > 0 && AllDigits(whole) && AllDigits(fraction)
    ensures ParseFloat(whole + "." + fraction) == Some(Finite(false, DigitsValue(whole + fraction), -|fraction|))
  {
    var s := whole + "." + fraction;
    FixedPointBare(whole, fraction);
    assert s[0] == whole[0];
    ParseUnsignedText(s);
    FixedPointUnsigned(s, whole, fraction);
  }

  /** A text without surrounding whitespace or a sign is read as it stands. */
  lemma ParseUnsignedText(s: string)
    requires Bare(s, Whitespace) && |s| > 0 && s[0] != '+' && s[0] != '-'
    ensures ParseFloat(s) == ParseUnsigned(false, s)
  {
    assert SignOf(StripSpace(s)) == (false, s) by {
      StripBare(s, Whitespace);
    }
  }

  lemma FixedPointUnsigned(body: string, whole: string, fraction: string)
    requires body == whole + "." + fraction
    requires |whole| > 0 && AllDigits(whole) && AllDigits(fraction)
    ensures ParseUnsigned(false, body) == Some(Finite(false, DigitsValue(whole + fraction), -|fraction|))
  {
    FixedPointDecimal(body, whole, fraction);
    assert body[0] == whole[0];
    UnsignedDecimal(false, body, DigitsValue(whole + fraction), -|fraction|);
  }

  lemma FixedPointDecimal(body: string, whole: string, fraction: string)
    requires body == whole + "." + fraction
    requires AllDigits(whole) && AllDigits(fraction) && |whole| + |fraction| > 0
    ensures ParseDecimal(body) == Some((DigitsValue(whole + fraction), -|fraction|))
  {
    NoExponent(whole, fraction);
    DecimalWithoutExponent(body);
    MantissaPoint(whole, fraction, 0);
  }

  /** A text starting with a digit or a point names none of the special values. */
  lemma NotSpecial(s: string)
    requires |s| > 0 && (IsDigit(s[0]) || s[0] == '.')
    ensures AsciiLower(s) != "inf" && AsciiLower(s) != "infinity" && AsciiLower(s) != "nan"
  {
    assert AsciiLower(s)[0] == s[0];
  }

  lemma FixedPointBare(whole: string, fraction: string)
    requires |whole| > 0 && AllDigits(whole) && AllDigits(fraction)
    ensures Bare(whole + "." + fraction, Whitespace)
  {
    var s := whole + "." + fraction;
    assert s[0] == whole[0];
    NotSpace(s[0]);
    assert s[|s| - 1] == if fraction == [] then '.' else fraction[|fraction| - 1];
    NotSpace(s[|s| - 1]);
  }

  /** A fixed-point numeral has no exponent marker. */
  lemma NoExponent(whole: string, fraction: string)
    requires AllDigits(whole) && AllDigits(fraction)
    ensures forall i :: 0 <= i < |whole + "." + fraction| ==> (whole + "." + fraction)[i] !in "eE"
  {
    var s := whole + "." + fraction;
    forall i | 0 <= i < |s| ensures s[i] !in "eE" {
      if i < |whole| {
        assert s[i] == whole[i];
      } else if i > |whole| {
        assert s[i] == fraction[i - |whole| - 1];
      }
    }
  }

  /** The decimal point of "W.F" sits right after the digits of W. */
  lemma PointAt(whole: string, fraction: string)
    requires AllDigits(whole)
    ensures Find(whole + "." + fraction, ".") == |whole|
  {
    var s := whole + "." + fraction;
    assert s[|whole|] == '.';
    forall i | 0 <= i < |whole| ensures s[i] !in "." {
      assert s[i] == whole[i];
    }
  }

  /** `Find` stops at the first character of `cs`, right after a prefix free of them. */
  lemma FindAfter(prefix: string, c: char, rest: string, cs: string)
    requires Find(prefix, cs) == |prefix| && c in cs
    ensures Find(prefix + [c] + rest, cs) == |prefix|
  {
    var s := prefix + [c] + rest;
    assert s[|prefix|] == c;
    forall i | 0 <= i < |prefix| ensures s[i] !in cs {
      assert s[i] == prefix[i];
    }
  }

  /** `Find` runs to the end of a text free of the characters of `cs`. */
  lemma FindNone(s: string, cs: string)
    requires forall i :: 0 <= i < |s| ==> s[i] !in cs
    ensures Find(s, cs) == |s|
  {
  }

  /** `float` refuses a space before the exponent marker. */
  lemma SpacedMarkerRejected()
    ensures ParseFloat("72.3 e") == None
  {
    var spaced := "72.3 e";
    assert |spaced| == 6 && spaced[0] == '7' && spaced[4] == ' ' && spaced[5] == 'e';
    BareRejected(spaced, 4);
  }

  /** `float` refuses a space between digits: "1 2" is no numeral. */
  lemma SpacedDigitsRejected()
    ensures ParseFloat("1 2") == None
  {
    var split := "1 2";
    assert |split| == 3 && split[0] == '1' && split[1] == ' ' && split[2] == '2';
    BareRejected(split, 1);
  }

  /** `float` refuses an exponent marker with no exponent after it. */
  lemma MarkerAloneRejected()
    ensures ParseFloat("1e") == None
  {
    var marker := "1e";
    assert |marker| == 2 && marker[0] == '1' && marker[1] == 'e';
    BareUnsigned(marker);
    TrailingMarker(marker);
    SpecialLength(marker);
  }

  /** `float` refuses a point with no digit. */
  lemma PointAloneRejected()
    ensures ParseFloat(".") == None
  {
    var point := ".";
    assert |point| == 1 && point[0] == '.';
    BareUnsigned(point);
    LonePoint(point);
    SpecialLength(point);
  }

  /** `float` refuses a special name cut short. */
  lemma CutNameRejected()
    ensures ParseFloat("infin") == None
  {
    var cut := "infin";
    assert |cut| == 5 && cut[0] == 'i' && cut[4] == 'n';
    BareRejected(cut, 0);
  }

  /** A point needs a digit beside it. */
  lemma LonePoint(b: string)
    requires b == "."
    ensures !DecimalText(b)
  {
    assert !IsDigit(b[0]) && b[0] != 'e' && b[0] != 'E';
    assert !MantissaText(b);
  }

  /** A marker needs an exponent after it: a text ending in 'e' or 'E' is no numeral. */
  lemma TrailingMarker(b: string)
    requires |b| > 0 && (b[|b| - 1] == 'e' || b[|b| - 1] == 'E')
    ensures !DecimalText(b)
  {
    if MantissaText(b) {
      MantissaChars(b);
      assert false;
    }
    if p :| 0 <= p < |b| && (b[p] == 'e' || b[p] == 'E') && MantissaText(b[..p]) && ExponentText(b[p + 1..]) {
      assert false;
    }
  }

  /** A text without padding or sign whose character at `i` belongs to no numeral
      is refused unless it is a special name. */
  lemma BareRejected(s: string, i: nat)
    requires 0 < |s| && '!' <= s[0] <= '~' && '!' <= s[|s| - 1] <= '~' && s[0] != '+' && s[0] != '-'
    requires i < |s| && !IsDigit(s[i]) && s[i] !in ".eE+-"
    requires (|s| != 3 && |s| != 8) || !('A' <= s[i] <= 'Z' || 'a' <= s[i] <= 'z')
    ensures ParseFloat(s) == None
  {
    BareUnsigned(s);
    SpecialLength(s);
    if SpecialWord(s) {
      SpecialLetters(s);
    }
    if DecimalText(s) {
      DecimalChars(s);
    }
  }

  /** The special names are three or eight characters long. */
  lemma SpecialLength(b: string)
    ensures SpecialWord(b) ==> |b| == 3 || |b| == 8
  {
    assert |AsciiLower(b)| == |b|;
  }

  /** The special names are made of letters. */
  lemma SpecialLetters(b: string)
    requires SpecialWord(b)
    ensures forall i :: 0 <= i < |b| ==> 'A' <= b[i] <= 'Z' || 'a' <= b[i] <= 'z'
  {
    var lower := AsciiLower(b);
    forall i | 0 <= i < |b| ensures 'A' <= b[i] <= 'Z' || 'a' <= b[i] <= 'z' {
      assert 'a' <= lower[i] <= 'z';
      assert lower[i] == LowerChar(b[i]);
    }
  }

  /** A text without padding or sign is read by `ParseUnsigned` as it stands. */
  lemma BareUnsigned(s: string)
    requires 0 < |s| && '!' <= s[0] <= '~' && '!' <= s[|s| - 1] <= '~' && s[0] != '+' && s[0] != '-'
    ensures SignOf(StripSpace(s)).1 == s
  {
    NotSpace(s[0]);
    NotSpace(s[|s| - 1]);
    StripBare(s, Whitespace);
  }

  /** The empty text is not a float (the cast fails on it). */
  lemma ParseFloatEmpty()
    ensures ParseFloat("") == None
  {
    StripPadded([], [], [], Whitespace);
    assert StripSpace("") == "";
  }
}
