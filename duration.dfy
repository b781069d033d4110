/** `_format_duration` of video_merger.py (the definition at line 913; an
    earlier one at line 212 is replaced by it when the class is built).
    Seconds are exact reals here: Python's floor division and `%` on a
    float are taken as the real floor division and the non-negative
    remainder. */
module Duration {
  import opened Text

  /** The argument: a number of seconds, or the string a failed probe gave. */
  datatype DurationArg = Seconds(s: real) | Label(text: string)

  /** `seconds // 3600`, `(seconds % 3600) // 60` and `int(seconds % 60)`. */
  function Clock(s: real): (r: (int, nat, nat))
    ensures r.1 < 60 && r.2 < 60
    ensures r.0 * 3600 + r.1 * 60 + r.2 == s.Floor
  {
    var hours := (s / 3600.0).Floor;
    var rest := s - 3600.0 * hours as real;      // seconds % 3600, in [0, 3600)
    var minutes := (rest / 60.0).Floor;
    var within := s - 60.0 * (s / 60.0).Floor as real;   // seconds % 60, in [0, 60)
    ClockParts(s, hours, rest, minutes, within);
    (hours, minutes as nat, within.Floor as nat)
  }

  lemma ClockParts(s: real, hours: int, rest: real, minutes: int, within: real)
    requires hours == (s / 3600.0).Floor && rest == s - 3600.0 * hours as real
    requires minutes == (rest / 60.0).Floor && within == s - 60.0 * (s / 60.0).Floor as real
    ensures 0 <= minutes < 60 && 0 <= within.Floor < 60
    ensures hours * 3600 + minutes * 60 + within.Floor == s.Floor
  {
    assert 0.0 <= rest < 3600.0;
    assert 0.0 <= rest / 60.0 < 60.0;
    var q := (s / 60.0).Floor;
    // s / 60 splits into 60 * hours + minutes whole minutes and a remainder below one minute
    assert (s / 60.0) == 60.0 * hours as real + rest / 60.0;
    assert q == 60 * hours + minutes by {
      assert (60 * hours + minutes) as real <= s / 60.0 < (60 * hours + minutes + 1) as real;
    }
    assert 0.0 <= within < 60.0;
    assert s == 60.0 * q as real + within;
    assert s.Floor == 60 * q + within.Floor by {
      assert (60 * q + within.Floor) as real <= s < (60 * q + within.Floor + 1) as real;
    }
  }

  /** "HH:MM:SS" when there is at least one hour, "MM:SS" otherwise; a
      string argument is passed through. */
  function FormatDuration(d: DurationArg): (r: string)
    ensures d.Label? ==> r == d.text
  {
    match d
    case Label(t) => t
    case Seconds(s) =>
      var (h, m, sec) := Clock(s);
      if h > 0 then Pad2(h) + ":" + Pad2(m) + ":" + Pad2(sec) else Pad2(m) + ":" + Pad2(sec)
  }

  /** The number of seconds a clock text stands for: its ':'-separated
      fields read as hours, minutes and seconds from the right. */
  function ClockValue(text: string): Option<int>
  {
    var fields := Split(text, ':');
    if exists i :: 0 <= i < |fields| && !AllDigits(fields[i]) then None
    else if |fields| == 2 then Some(ParseNat(fields[0]) * 60 + ParseNat(fields[1]))
    else if |fields| == 3 then Some(ParseNat(fields[0]) * 3600 + ParseNat(fields[1]) * 60 + ParseNat(fields[2]))
    else None
  }

  /** The hour field is shown exactly when there is at least one hour. */
  lemma HourShown(s: real)
    requires s >= 0.0
    ensures Clock(s).0 >= 0 && (Clock(s).0 > 0 <==> s >= 3600.0)
  {
    assert s / 3600.0 >= 0.0;
    if s >= 3600.0 {
      assert s / 3600.0 >= 1.0;
    }
  }

  lemma JoinTwo(a: string, b: string)
    ensures Join([a, b], [':']) == a + ":" + b
  {
    assert [a, b][1..] == [b];
  }

  lemma JoinThree(a: string, b: string, c: string)
    ensures Join([a, b, c], [':']) == a + ":" + b + ":" + c
  {
    assert [a, b, c][1..] == [b, c];
    JoinTwo(b, c);
  }

  /** A padded field is all digits, so it holds no ':'. */
  lemma FieldDigits(n: nat)
    ensures ':' !in Pad2(n) && AllDigits(Pad2(n))
  {
    var p := Pad2(n);
    forall i | 0 <= i < |p| ensures p[i] != ':' {
      assert IsDigit(p[i]);
    }
  }

  /** The clock text is its fields joined by ':'. */
  lemma ClockFields(h: int, m: nat, sec: nat, parts: seq<string>)
    requires parts == if h > 0 then [Pad2(h), Pad2(m), Pad2(sec)] else [Pad2(m), Pad2(sec)]
    ensures Join(parts, [':']) == if h > 0 then Pad2(h) + ":" + Pad2(m) + ":" + Pad2(sec) else Pad2(m) + ":" + Pad2(sec)
    ensures forall i :: 0 <= i < |parts| ==> ':' !in parts[i] && AllDigits(parts[i])
  {
    FieldDigits(m);
    FieldDigits(sec);
    if h > 0 {
      FieldDigits(h);
      JoinThree(Pad2(h), Pad2(m), Pad2(sec));
    } else {
      JoinTwo(Pad2(m), Pad2(sec));
    }
  }

  /** Reading the text back gives the whole seconds of any non-negative
      duration, and the hour field is shown exactly when there is an hour. */
  lemma FormatDurationRoundTrip(s: real)
    requires s >= 0.0
    ensures ClockValue(FormatDuration(Seconds(s))) == Some(s.Floor)
    ensures |Split(FormatDuration(Seconds(s)), ':')| == (if s >= 3600.0 then 3 else 2)
  {
    var (h, m, sec) := Clock(s);
    HourShown(s);
    var parts := if h > 0 then [Pad2(h), Pad2(m), Pad2(sec)] else [Pad2(m), Pad2(sec)];
    ClockFields(h, m, sec, parts);
    SplitJoin(parts, ':');
  }
}
