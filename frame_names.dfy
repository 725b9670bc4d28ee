/** The names `render_images` gives the output frames, and the `%0Nd`
    sequence pattern `render_video` hands to ffmpeg to read them back. */
module FrameNames {
  import opened Outcomes
  import opened PyStr
  import opened PyFormat

  /** `len(str(len(self.image_series)))`: the digit count of the series length. */
  function FrameWidth(n: nat): nat
  {
    |NatToString(n)|
  }

  /** `'TIMELAPSE' + format(k, '0' + str(max_digits)) + '.JPG'`. */
  function FrameName(k: nat, n: nat): string
  {
    "TIMELAPSE" + ZeroPad(k, FrameWidth(n)) + ".JPG"
  }

  /** For an index up to the series length the number part of the name is
      exactly `len(str(n))` digits long and denotes the index. */
  lemma FrameNameDigits(k: nat, n: nat)
    requires k <= n
    ensures var digits := ZeroPad(k, FrameWidth(n));
      && FrameName(k, n) == "TIMELAPSE" + digits + ".JPG"
      && |digits| == FrameWidth(n)
      && AllDigits(digits)
      && DigitsValue(digits) == k
  {
    NatToStringLengthMonotone(k, n);
    ZeroPadFacts(k, FrameWidth(n));
  }

  /** Frame names of one series sort (as Python compares strings) exactly
      in index order, so an image sequence reader meets them in order. */
  lemma FrameNamesOrdered(j: nat, k: nat, n: nat)
    requires j <= n && k <= n
    ensures StrLt(FrameName(j, n), FrameName(k, n)) <==> j < k
  {
    var dj, dk := ZeroPad(j, FrameWidth(n)), ZeroPad(k, FrameWidth(n));
    FrameNameDigits(j, n);
    FrameNameDigits(k, n);
    var stem := "TIMELAPSE";
    assert FrameName(j, n) == stem + (dj + ".JPG");
    assert FrameName(k, n) == stem + (dk + ".JPG");
    StrLtEqualLengthPrefix(stem, stem, dj + ".JPG", dk + ".JPG");
    StrLtIrreflexive(stem);
    StrLtEqualLengthPrefix(dj, dk, ".JPG", ".JPG");
    StrLtIrreflexive(".JPG");
    DigitsOrder(dj, dk);
  }

  /** Different indices of one series never share a frame name. */
  lemma FrameNamesDistinct(j: nat, k: nat, n: nat)
    requires j <= n && k <= n && j != k
    ensures FrameName(j, n) != FrameName(k, n)
  {
    FrameNamesOrdered(j, k, n);
    FrameNamesOrdered(k, j, n);
    StrLtIrreflexive(FrameName(j, n));
  }

  /** Nine frames take one digit, ten take two; frame 7 of 12 is
      "TIMELAPSE07.JPG" and frame 100 of 100 is "TIMELAPSE100.JPG". */
  lemma FrameNameExamples()
    ensures FrameWidth(9) == 1 && FrameWidth(10) == 2 && FrameWidth(99) == 2 && FrameWidth(100) == 3
    ensures FrameName(7, 12) == "TIMELAPSE07.JPG"
    ensures FrameName(100, 100) == "TIMELAPSE100.JPG"
  {
    assert NatToString(12) == "12";
    assert NatToString(100) == "100";
    assert Zeros(1) == "0";
  }

  /** `'TIMELAPSE%0' + str(len(str(len(self.image_series)))) + 'd.JPG'`. */
  function FramePattern(n: nat): string
  {
    "TIMELAPSE%0" + NatToString(FrameWidth(n)) + "d.JPG"
  }

  /** The longest run of decimal digits at the start of `s`. */
  function DigitRun(s: string): (r: string)
    ensures AllDigits(r) && |r| <= |s| && r == s[..|r|]
    ensures |r| < |s| ==> !IsDigit(s[|r|])
  {
    if s != [] && IsDigit(s[0]) then [s[0]] + DigitRun(s[1..]) else []
  }

  /** How an image-sequence reader expands a pattern holding one `%0<w>d`
      directive for frame number `k`: the text around the directive is kept
      and the number is zero-filled to width `w`. Any other pattern is not
      modelled (None). */
  function ExpandSequencePattern(pattern: string, k: nat): Option<string>
  {
    var fields := Split(pattern, '%');
    if |fields| != 2 then None
    else
      var rest := fields[1];
      if rest == [] || rest[0] != '0' then None
      else
        var width := DigitRun(rest[1..]);
        if 1 + |width| >= |rest| || rest[1 + |width|] != 'd' then None
        else Some(fields[0] + ZeroPad(k, DigitsValue(width)) + rest[2 + |width|..])
  }

  lemma {:induction false} DigitRunOf(d: string, rest: string)
    requires AllDigits(d) && (rest == [] || !IsDigit(rest[0]))
    ensures DigitRun(d + rest) == d
  {
    if d != [] {
      assert (d + rest)[1..] == d[1..] + rest;
      DigitRunOf(d[1..], rest);
      assert d == [d[0]] + d[1..];
    } else {
      assert d + rest == rest;
    }
  }

  /** The pattern given to ffmpeg expands, for every frame number, to the
      very name `render_images` saved that frame under. */
  lemma PatternMatchesNames(n: nat, k: nat)
    ensures ExpandSequencePattern(FramePattern(n), k) == Some(FrameName(k, n))
  {
    var w := NatToString(FrameWidth(n));
    var tail := "0" + w + "d.JPG";
    PatternFields(n);
    assert tail[1..] == w + "d.JPG";
    DigitRunOf(w, "d.JPG");
    assert tail[1 + |w|] == 'd';
    assert tail[2 + |w|..] == ".JPG";
    NatToStringValue(FrameWidth(n));
  }

  /** The pattern holds exactly one `%`, right after the stem. */
  lemma PatternFields(n: nat)
    ensures Split(FramePattern(n), '%') == ["TIMELAPSE", "0" + NatToString(FrameWidth(n)) + "d.JPG"]
  {
    var w := NatToString(FrameWidth(n));
    var tail := "0" + w + "d.JPG";
    assert FramePattern(n) == "TIMELAPSE" + ['%'] + tail;
    assert '%' !in "TIMELAPSE";
    SplitAtSeparator("TIMELAPSE", tail, '%');
    assert '%' !in tail by {
      forall i | 0 <= i < |tail| ensures tail[i] != '%' {
        if 1 <= i < 1 + |w| { assert tail[i] == w[i - 1]; }
      }
    }
    SplitWithoutSeparator(tail, '%');
  }

  /** `render_video`'s shell command: change into the save directory and
      run ffmpeg at the chosen rates, reading the frames through the
      pattern and writing `save_as`, which ends the command. */
  function FfmpegCommand(saveDirectory: string, framerate: int, imagesPerSecond: int, n: nat, saveAs: string): (cmd: string)
    ensures var input := " -i " + FramePattern(n) + " " + saveAs;
      |input| <= |cmd| && cmd[|cmd| - |input|..] == input
  {
    var setup := "cd " + saveDirectory + " && ffmpeg -f image2 -framerate " + IntToString(framerate)
      + " -pattern_type sequence -start_number 1 -r " + IntToString(imagesPerSecond);
    var input := " -i " + FramePattern(n) + " " + saveAs;
    setup + input
  }
}
