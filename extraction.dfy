/** What `process_image` does with the OCR text of one image: run the
    default text parser, convert its token with `int()`, and fall back to
    the temperature the user types in when either step raises IndexError or
    ValueError. The OCR text and the typed-in value are inputs. */
module Extraction {
  import opened Outcomes
  import opened PyStr
  import opened PyFormat
  import opened TemperatureText

  /** The ASCII white space `int()` ignores around its digits: space, tab,
      line feed, vertical tab, form feed and carriage return. */
  predicate IsSpace(c: char)
  {
    c == ' ' || (9 <= c as int <= 13)
  }

  function TrimStart(s: string): (r: string)
    ensures |r| <= |s|
    ensures r == [] || !IsSpace(r[0])
  {
    if s != [] && IsSpace(s[0]) then TrimStart(s[1..]) else s
  }

  function TrimEnd(s: string): (r: string)
    ensures |r| <= |s|
    ensures r == [] || !IsSpace(r[|r| - 1])
  {
    if s != [] && IsSpace(s[|s| - 1]) then TrimEnd(s[..|s| - 1]) else s
  }

  /** `int(s)` on a string: surrounding white space is ignored, then an
      optional sign and at least one decimal digit; anything else is a
      ValueError. */
  function ParseInt(s: string): (r: Result<int>)
    ensures r.Failure? ==> r.error == ValueError
  {
    var t := TrimEnd(TrimStart(s));
    if t != [] && (t[0] == '-' || t[0] == '+') then
      var digits := t[1..];
      if digits != [] && AllDigits(digits) then
        var v: int := DigitsValue(digits);
        Success(if t[0] == '-' then -v else v)
      else Failure(ValueError)
    else if t != [] && AllDigits(t) then Success(DigitsValue(t))
    else Failure(ValueError)
  }

  /** `int(str(n)) == n`. */
  lemma ParseIntRoundTrip(n: int)
    ensures ParseInt(IntToString(n)) == Success(n)
  {
    if n < 0 {
      ParseNegative(-n);
    } else {
      ParseNonNegative(n);
    }
  }

  lemma ParseNonNegative(m: nat)
    ensures ParseInt(NatToString(m)) == Success(m)
  {
    var d := NatToString(m);
    NatToStringValue(m);
    assert TrimStart(d) == d;
    assert TrimEnd(d) == d;
  }

  lemma ParseNegative(m: nat)
    requires m > 0
    ensures ParseInt("-" + NatToString(m)) == Success(-(m as int))
  {
    var d := NatToString(m);
    var s := "-" + d;
    NatToStringValue(m);
    assert TrimStart(s) == s;
    assert s[|s| - 1] == d[|d| - 1];
    assert TrimEnd(s) == s;
    assert s[1..] == d;
  }

  /** Text holding no digit is never an integer. */
  lemma ParseIntNeedsDigit(s: string)
    requires forall i :: 0 <= i < |s| ==> !IsDigit(s[i])
    ensures ParseInt(s) == Failure(ValueError)
  {
    var t := TrimEnd(TrimStart(s));
    TrimmedInside(s);
    if t != [] {
      assert t[0] in t;
      if |t| > 1 {
        assert t[1] in t;
      }
    }
  }

  /** Trimming keeps a contiguous part of the text. */
  lemma TrimmedInside(s: string)
    ensures forall c :: c in TrimEnd(TrimStart(s)) ==> c in s
  {
    TrimStartInside(s);
    TrimEndInside(TrimStart(s));
  }

  lemma {:induction false} TrimStartInside(s: string)
    ensures forall c :: c in TrimStart(s) ==> c in s
  {
    if s != [] && IsSpace(s[0]) {
      TrimStartInside(s[1..]);
    }
  }

  lemma {:induction false} TrimEndInside(s: string)
    ensures forall c :: c in TrimEnd(s) ==> c in s
  {
    if s != [] && IsSpace(s[|s| - 1]) {
      TrimEndInside(s[..|s| - 1]);
    }
  }

  /** Line 305 as written: `int(self.temperature_text_parser)` converts the
      parser function itself, whatever the text. That raises TypeError,
      which the `except (IndexError, ValueError)` clause does not catch. */
  function ExtractAsWritten(text: string, typed: int): (r: Result<int>)
  {
    Failure(TypeError)
  }

  /** The evidently intended extraction, `int(parser(text))`: the parser's
      IndexError and `int()`'s ValueError are the two exceptions caught,
      and both fall back to the typed-in value. */
  function ExtractTemperature(text: string, typed: int): int
  {
    var token := ParseTemperatureText(text);
    if token.Failure? then typed
    else
      var value := ParseInt(token.value);
      if value.Failure? then typed else value.value
  }

  /** The exceptions the default parser and `int()` raise are exactly the
      ones `process_image` catches, so the intended extraction never raises. */
  lemma ExtractionCatchesAll(text: string)
    ensures var token := ParseTemperatureText(text);
      && (token.Failure? ==> token.error in {IndexError, ValueError})
      && (token.Success? && ParseInt(token.value).Failure? ==> ParseInt(token.value).error in {IndexError, ValueError})
  {
  }

  /** The overlay `<c>°C <f>°F` yields the Fahrenheit reading `f`, whatever
      the user would have typed. */
  lemma ExtractReadsFahrenheit(c: string, f: int, typed: int)
    requires Degree !in c
    ensures ExtractTemperature(c + "°C " + IntToString(f) + "°F", typed) == f
  {
    var t := IntToString(f);
    IntToStringPlain(f);
    ParseReadsSecondToken(c, "C", t, "°F");
    assert c + [Degree] + "C" + [' '] + t + "°F" == c + "°C " + t + "°F";
    ParseIntRoundTrip(f);
  }

  /** `str(n)` holds only digits and a leading minus sign. */
  lemma IntToStringPlain(n: int)
    ensures Degree !in IntToString(n) && ' ' !in IntToString(n)
  {
    var s := IntToString(n);
    var m := if n < 0 then -n else n;
    assert AllDigits(NatToString(m));
    if n < 0 {
      assert forall i :: 1 <= i < |s| ==> s[i] == NatToString(m)[i - 1];
    }
  }

  /** Text the parser cannot split, such as an unreadable overlay without a
      degree sign, falls back to the typed-in value. */
  lemma ExtractFallsBackWithoutDegree(text: string, typed: int)
    requires Degree !in text
    ensures ExtractTemperature(text, typed) == typed
  {
    ParseFailsWithoutDegree(text);
  }

  /** So does an overlay whose Fahrenheit token has no digit in it. */
  lemma ExtractFallsBackOnLetters(c: string, token: string, typed: int)
    requires Degree !in c && Degree !in token && ' ' !in token
    requires forall i :: 0 <= i < |token| ==> !IsDigit(token[i])
    ensures ExtractTemperature(c + "°C " + token + "°F", typed) == typed
  {
    ParseReadsSecondToken(c, "C", token, "°F");
    assert c + [Degree] + "C" + [' '] + token + "°F" == c + "°C " + token + "°F";
    ParseIntNeedsDigit(token);
  }

  /** The source as written loses the reading the overlay plainly holds:
      on "21°C 70°F" it raises TypeError where 70 was meant. */
  lemma AsWrittenLosesReading()
    ensures ExtractAsWritten("21°C 70°F", 0) == Failure(TypeError)
    ensures ExtractTemperature("21°C 70°F", 0) == 70
  {
    ExtractReadsFahrenheit("21", 70, 0);
    assert IntToString(70) == "70";
    assert "21" + "°C " + "70" + "°F" == "21°C 70°F";
  }
}
