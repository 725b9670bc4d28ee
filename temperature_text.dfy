/** The default OCR text parser `parse_temperature_text`: the overlay reads
    like "21°C 70°F", and the parser keeps the token that follows the first
    space after the first degree sign. */
module TemperatureText {
  import opened Outcomes
  import opened PyStr

  const Degree: char := '°'

  /** `text.split('°')[1].split(' ')[1]`; a missing field is an IndexError. */
  function ParseTemperatureText(text: string): (r: Result<string>)
    ensures r.Failure? ==> r.error == IndexError
    ensures r.Success? ==> Degree !in r.value && ' ' !in r.value
  {
    var degrees := Split(text, Degree);
    if |degrees| < 2 then Failure(IndexError)

    else
      var parts := Split(degrees[1], ' ');
      if |parts| < 2 then Failure(IndexError)
      else
        assert Degree !in parts[1] && ' ' !in parts[1] by {
          SplitFieldsFree(text, Degree, 1);
          SplitFieldsFree(degrees[1], ' ', 1);
          forall c | c in parts[1] ensures c != Degree {
            SplitFieldsFromText(degrees[1], ' ', 1, c);
          }
        }
        Success(parts[1])
  }

  /** Text without a degree sign fails with IndexError. */
  lemma ParseFailsWithoutDegree(text: string)
    requires Degree !in text
    ensures ParseTemperatureText(text) == Failure(IndexError)
  {
    SplitWithoutSeparator(text, Degree);
  }

  /** Text shaped `a°u t…`: the parser returns `t`, the token after the first
      space of the segment that follows the first degree sign, provided that
      segment ends (at a degree sign, a space or the end of the text) right
      after `t`. */
  lemma ParseReadsSecondToken(a: string, u: string, t: string, tail: string)
    requires Degree !in a && Degree !in u && ' ' !in u
    requires Degree !in t && ' ' !in t
    requires tail == [] || tail[0] == Degree || tail[0] == ' '
    ensures ParseTemperatureText(a + [Degree] + u + [' '] + t + tail) == Success(t)
  {
    var text := a + [Degree] + u + [' '] + t + tail;
    var h := SegmentRest(tail);
    var seg := DegreeSegment(a, u + [' '] + t, tail, h);
    assert text == a + [Degree] + (u + [' '] + t) + tail;
    SecondToken(u, t, h);
  }

  /** The field after the first degree sign of `a°<seg><tail>`. */
  lemma DegreeSegment(a: string, seg: string, tail: string, h: string) returns (field: string)
    requires Degree !in a && Degree !in seg
    requires h == Split(tail, Degree)[0]
    ensures field == seg + h
    ensures |Split(a + [Degree] + seg + tail, Degree)| >= 2
    ensures Split(a + [Degree] + seg + tail, Degree)[1] == field
  {
    field := seg + h;
    SplitAtSeparator(a, seg + tail, Degree);
    assert a + [Degree] + seg + tail == a + [Degree] + (seg + tail);
    SplitAfterSeparatorFree(seg, tail, Degree);
  }

  /** The second space-separated field of `u t<h>`. */
  lemma SecondToken(u: string, t: string, h: string)
    requires ' ' !in u && ' ' !in t
    requires h == [] || h[0] == ' '
    ensures |Split(u + [' '] + t + h, ' ')| >= 2
    ensures Split(u + [' '] + t + h, ' ')[1] == t
  {
    SplitAtSeparator(u, t + h, ' ');
    assert u + [' '] + t + h == u + [' '] + (t + h);
    SplitAfterSeparatorFree(t, h, ' ');
    FirstFieldEmpty(h, ' ');
    assert t + "" == t;
  }

  /** The part of `tail` up to its first degree sign, for a `tail` that is
      empty or starts with a degree sign or a space: empty or a space first. */
  lemma SegmentRest(tail: string) returns (h: string)
    requires tail == [] || tail[0] == Degree || tail[0] == ' '
    ensures h == Split(tail, Degree)[0]
    ensures h == [] || h[0] == ' '
  {
    h := Split(tail, Degree)[0];
    if tail == [] || tail[0] == Degree {
      FirstFieldEmpty(tail, Degree);
    } else {
      SplitAfterSeparatorFree([tail[0]], tail[1..], Degree);
      assert [tail[0]] + tail[1..] == tail;
    }
  }

  /** Text shaped `a°u` with no space in the segment `u` after the first
      degree sign fails with IndexError. */
  lemma ParseFailsWithoutSpace(a: string, u: string, tail: string)
    requires Degree !in a && Degree !in u && ' ' !in u
    requires tail == [] || tail[0] == Degree
    ensures ParseTemperatureText(a + [Degree] + u + tail) == Failure(IndexError)
  {
    SplitAtSeparator(a, u + tail, Degree);
    assert a + [Degree] + u + tail == a + [Degree] + (u + tail);
    SplitAfterSeparatorFree(u, tail, Degree);
    FirstFieldEmpty(tail, Degree);
    assert u + "" == u;
    SplitWithoutSeparator(u, ' ');
  }

  /** The overlay this parser was written for. */
  lemma ParseCelsiusFahrenheitOverlay()
    ensures ParseTemperatureText("21°C 70°F") == Success("70")
  {
    ParseReadsSecondToken("21", "C", "70", "°F");
    assert "21" + [Degree] + "C" + [' '] + "70" + "°F" == "21°C 70°F";
  }
}
