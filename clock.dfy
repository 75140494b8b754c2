/** Clock arithmetic of the appointment controller: the `addMinutes` helper that
    turns an `HH:MM[:SS]` text plus a number of minutes into a zero-padded
    `HH:MM` text. Times of day are counted in minutes since midnight. */
module Clock {
  import opened Wrappers
  import opened Text

  /** JavaScript's `Number` on one piece of a time text: the empty text is 0 and
      a text of decimal digits is its value; anything else is `None`, standing
      for NaN. `Number` also reads signs, surrounding blanks, decimal points,
      exponents and `0x`/`0o`/`0b` forms; those pieces are `None` here too. */
  function NumberOf(s: string): (r: Option<nat>)
    ensures r.Some? <==> IsDigits(s)
  {
    if IsDigits(s) then Some(DigitsValue(s)) else None
  }

  /** What `addMinutes` reads from its first argument: the first two
      colon-separated pieces as hours and minutes, `60 * hours + minutes`;
      further pieces (seconds) are ignored. A text without a colon has no
      minutes piece and reads as NaN. */
  function ParseClock(s: string): Option<nat>
  {
    var parts := Split(s, ':');
    if |parts| < 2 then None
    else
      match (NumberOf(parts[0]), NumberOf(parts[1]))
      case (Some(h), Some(m)) => Some(60 * h + m)
      case _ => None
  }

  /** JavaScript's `%` by 60: the remainder keeps the sign of the total, unlike
      Dafny's `%`. A zero remainder of a negative total is `-0`, which prints
      as "0", so it is written 0. */
  function SignedRem60(total: int): (r: int)
    ensures -60 < r < 60 && (total - r) % 60 == 0
    ensures total >= 0 ==> r >= 0
    ensures total < 0 ==> r <= 0
  {
    if total >= 0 || total % 60 == 0 then total % 60 else total % 60 - 60
  }

  /** The text `addMinutes` returns for a total number of minutes: the hours
      `Math.floor(total / 60)` (Dafny's `/` by a positive divisor rounds down
      too) and the minutes `total % 60`, each printed and padded to two
      characters. Hours are not reduced modulo 24. */
  function FormatClock(total: int): string
  {
    PadInt2(total / 60) + ":" + PadInt2(SignedRem60(total))
  }

  /** What `addMinutes` returns when a piece is NaN: `NaN.toString()` is
      already longer than two characters. */
  const NotANumber: string := "NaN:NaN"

  /** `addMinutes(timeString, minutes)`; `minutes` may be negative, as a stored
      appointment duration may be. */
  function AddMinutes(s: string, minutes: int): string
  {
    match ParseClock(s)
    case Some(t) => FormatClock(t + minutes)
    case None => NotANumber
  }

  /** Reading back a formatted non-negative time gives the total it was made
      from. */
  lemma FormatParse(total: nat)
    ensures ParseClock(FormatClock(total)) == Some(total)
  {
    var h, m := Pad2(total / 60), Pad2(total % 60);
    assert FormatClock(total) == h + ":" + m;
    assert ':' !in h && ':' !in m by {
      assert forall i :: 0 <= i < |h| ==> IsDigit(h[i]);
      assert forall i :: 0 <= i < |m| ==> IsDigit(m[i]);
    }
    SplitAround(h, ':', m);
    SplitWithout(m, ':');
    assert h + ":" + m == h + [':'] + m;
    assert Split(FormatClock(total), ':') == [h, m];
  }

  /** A formatted time starts with a digit or a minus sign, so it is never
      "NaN:NaN". */
  lemma FormatIsNotNaN(total: int)
    ensures FormatClock(total) != NotANumber
  {
    var h := PadInt2(total / 60);
    assert FormatClock(total)[0] == h[0];
    if total / 60 >= 0 {
      assert IsDigit(h[0]);
    }
    assert NotANumber[0] == 'N';
  }

  /** The result of `addMinutes` on a readable time reads back as that time
      plus the added minutes, as long as the sum is not negative: no wrap at
      24:00, no loss. */
  lemma AddMinutesReadsBack(s: string, minutes: int, t: nat)
    requires ParseClock(s) == Some(t) && t + minutes >= 0
    ensures ParseClock(AddMinutes(s, minutes)) == Some(t + minutes)
  {
    AddMinutesUnfolds(s, minutes);
    var total: nat := ParseClock(s).value + minutes;
    ReadBack(AddMinutes(s, minutes), total);
  }

  /** On a readable time, `addMinutes` formats the time read plus the
      minutes. */
  lemma AddMinutesUnfolds(s: string, minutes: int)
    requires ParseClock(s).Some?
    ensures AddMinutes(s, minutes) == FormatClock(ParseClock(s).value + minutes)
  {
  }

  /** Any text equal to a formatted non-negative total reads back as it. */
  lemma ReadBack(r: string, total: nat)
    requires r == FormatClock(total)
    ensures ParseClock(r) == Some(total)
  {
    FormatParse(total);
  }

  /** A negative sum prints as two signed pieces: the hours, rounded down, are
      a minus sign and digits; the minutes keep the sign of the sum, so they
      are a minus sign and digits, or "00" on a whole hour. Read as signed
      numbers `h` and `m`, the pieces give `60 * h + m` equal to the sum only
      on a whole hour, and an hour less otherwise. */
  lemma AddMinutesNegative(s: string, minutes: int, t: nat)
    requires ParseClock(s) == Some(t) && t + minutes < 0
    ensures var total := t + minutes;
      var h, m := total / 60, SignedRem60(total);
      var hp, mp := PadInt2(h), PadInt2(m);
      AddMinutes(s, minutes) == hp + ":" + mp &&
      h < 0 && hp[0] == '-' && IsDigits(hp[1..]) && DigitsValue(hp[1..]) == -h &&
      m <= 0 && (m == 0 ==> mp == "00") &&
      (m < 0 ==> mp[0] == '-' && IsDigits(mp[1..]) && DigitsValue(mp[1..]) == -m) &&
      (total % 60 == 0 ==> m == 0 && 60 * h == total) &&
      (total % 60 != 0 ==> 60 * h + m == total - 60)
  {
    AddMinutesUnfolds(s, minutes);
    var total := t + minutes;
    var h, m := total / 60, SignedRem60(total);
    assert total == 60 * h + total % 60;
    PadNegative(h);
    if m < 0 {
      PadNegative(m);
    } else {
      PadZero();
    }
  }

  /** Zero minutes print as "00". */
  lemma PadZero()
    ensures PadInt2(0) == "00"
  {
    assert DecimalString(0) == "0";
  }

  /** An appointment at 00:05:00 lasting -10 minutes ends at "-1:-5", which
      reads back as -65 minutes instead of -5. */
  lemma NegativeEndExample()
    ensures AddMinutes("00:05:00", -10) == "-1:-5"
  {
    FiveMinutesPastMidnight();
    assert PadInt2(-5 / 60) == "-1" by {
      assert -5 / 60 == -1;
      assert DecimalString(1) == "1";
    }
    assert PadInt2(SignedRem60(-5)) == "-5" by {
      assert SignedRem60(-5) == -5;
      assert DecimalString(5) == "5";
    }
  }

  /** "00:05:00" reads as five minutes past midnight. */
  lemma FiveMinutesPastMidnight()
    ensures ParseClock("00:05:00") == Some(5)
  {
    SecondsIgnored("00", "05", "00");
    assert "00" + ":" + "05" + ":" + "00" == "00:05:00";
    assert FormatClock(5) == "00:05" by {
      assert DecimalString(0) == "0" && DecimalString(5) == "5";
      assert Pad2(0) == "00" && Pad2(5) == "05";
      assert SignedRem60(5) == 5;
    }
    FormatParse(5);
    assert "00" + ":" + "05" == "00:05";
  }

  /** `addMinutes` gives "NaN:NaN" exactly when its input has no readable
      hours and minutes. */
  lemma AddMinutesNaNExactly(s: string, minutes: int)
    ensures ParseClock(s).None? <==> AddMinutes(s, minutes) == NotANumber
  {
    match ParseClock(s)
    case Some(t) =>
      FormatIsNotNaN(t + minutes);
    case None =>
  }

  /** Below 100 hours the result has the fixed shape `HH:MM`: five characters
      with the colon in the middle and two-digit minutes below 60. */
  lemma AddMinutesShape(s: string, minutes: int)
    requires ParseClock(s).Some? && 0 <= ParseClock(s).value + minutes < 6000
    ensures var r := AddMinutes(s, minutes);
      |r| == 5 && r[2] == ':' && IsDigits(r[..2]) && IsDigits(r[3..])
      && DigitsValue(r[..2]) == (ParseClock(s).value + minutes) / 60
      && DigitsValue(r[3..]) == (ParseClock(s).value + minutes) % 60 < 60
  {
    var total := ParseClock(s).value + minutes;
    var h, m := Pad2(total / 60), Pad2(total % 60);
    var r := h + ":" + m;
    assert AddMinutes(s, minutes) == r;
    assert r[..2] == h && r[3..] == m;
  }

  /** A seconds piece is dropped: `HH:MM:SS` reads as `HH:MM`. */
  lemma SecondsIgnored(h: string, m: string, sec: string)
    requires ':' !in h && ':' !in m
    ensures ParseClock(h + ":" + m + ":" + sec) == ParseClock(h + ":" + m)
  {
    var tail := m + [':'] + sec;
    SplitAround(h, ':', tail);
    SplitAround(m, ':', sec);
    var long := Split(h + [':'] + tail, ':');
    assert long[0] == h && long[1] == m;
    SplitAround(h, ':', m);
    SplitWithout(m, ':');
    var short := Split(h + [':'] + m, ':');
    assert short == [h, m];
    assert h + ":" + m + ":" + sec == h + [':'] + tail;
    assert h + ":" + m == h + [':'] + m;
  }
}
