/**
 * The ISO-8601 duration conversion of `extract_video_data_real`
 * (app.py:172-183). Only the `PT<minutes>M<seconds>S` subset is handled:
 * every "PT" is deleted, the text before the first `M` is the minutes, the
 * text after it (up to a second `M`, if any) is searched for the seconds
 * before its first `S`. A missing component counts as 0; a component
 * `int()` rejects raises, modelled as `None`. Without "PT" the default of
 * 30 seconds stays.
 */
module Duration {
  import opened Wrappers
  import opened Text

  const DefaultSeconds := 30

  /** The seconds: the digits before the first `S`, or 0 when there is no `S`. */
  function SecondsPart(s: string): Option<nat> {
    if 'S' in s then ParseInt(Split(s, 'S')[0]) else Some(0)
  }

  /** `minutes * 60 + seconds` (app.py:183) */
  function TotalSeconds(minutes: nat, seconds: nat): (t: int)
    ensures 0 <= t
  {
    minutes * 60 + seconds
  }

  /** What lines 176-183 compute from the text left once "PT" is deleted, or `None` when they raise. */
  function MinutesSeconds(d: string): (r: Option<int>)
    ensures r.Some? ==> 0 <= r.value
  {
    if 'M' in d then
      var pieces := Split(d, 'M');
      match ParseInt(pieces[0])
      case None => None
      case Some(minutes) =>
        match SecondsPart(pieces[1])
        case None => None
        case Some(seconds) => Some(TotalSeconds(minutes, seconds))
    else
      match SecondsPart(d)
      case None => None
      case Some(seconds) => Some(seconds)
  }

  /** What lines 172-183 leave in `duration` for a string value, or `None` when they raise. */
  function IsoSeconds(iso: string): (r: Option<int>)
    ensures r.Some? ==> 0 <= r.value
  {
    if !Contains(iso, "PT") then Some(DefaultSeconds)
    else MinutesSeconds(ReplaceAll(iso, "PT", ""))
  }

  /** The step-by-step conversion as the source writes it. */
  method ParseDuration(iso: string) returns (duration: Option<int>)
    ensures duration == IsoSeconds(iso)
  {
    duration := Some(DefaultSeconds);
    if Contains(iso, "PT") {
      var durationStr := ReplaceAll(iso, "PT", "");
      var minutes, seconds := 0, 0;
      if 'M' in durationStr {
        var minutesPart := Split(durationStr, 'M')[0];
        var parsed := ParseInt(minutesPart);
        if parsed.None? {
          return None;
        }
        minutes := parsed.value;
        durationStr := Split(durationStr, 'M')[1];
      }
      if 'S' in durationStr {
        var secondsPart := Split(durationStr, 'S')[0];
        var parsed := ParseInt(secondsPart);
        if parsed.None? {
          return None;
        }
        seconds := parsed.value;
      }
      duration := Some(TotalSeconds(minutes, seconds));
    }
  }

  // ---------------------------------------------------------------------
  // What the conversion computes
  // ---------------------------------------------------------------------

  lemma DigitsLackChar(s: string, c: char)
    requires AllDigits(s) && !IsDigit(c)
    ensures c !in s
  {
  }

  /** A string without 'P' contains no "PT". */
  lemma NoPTWithoutP(s: string)
    requires 'P' !in s
    ensures !Occurs(s, "PT")
  {
    forall i: nat | i <= |s| ensures !OccursAt(s, "PT", i) {
      if i < |s| {
        assert s[i..][0] == s[i];
      }
    }
  }

  /** Text after a leading "PT" without further 'P' is converted as it stands. */
  lemma LeadingPT(x: string)
    requires 'P' !in x
    ensures IsoSeconds("PT" + x) == MinutesSeconds(x)
  {
    assert OccursAt("PT" + x, "PT", 0);
    assert ("PT" + x)[2..] == x;
    assert "PT" <= "PT" + x;
    NoPTWithoutP(x);
    ReplaceAllWithoutOccurrence(x, "PT", "");
    assert ReplaceAll("PT" + x, "PT", "") == "" + ReplaceAll(x, "PT", "");
    assert Occurs("PT" + x, "PT");
    assert Contains("PT" + x, "PT");
    assert ReplaceAll("PT" + x, "PT", "") == x;
  }

  /** A seconds component `<digits>S` reads back as the digits' value. */
  lemma SecondsPartOfDigits(b: string)
    requires b != [] && AllDigits(b)
    ensures SecondsPart(b + "S") == Some(DecimalValue(b))
  {
    DigitsLackChar(b, 'S');
    assert b + "S" == b + ['S'] + [];
    SplitAtFirst(b, 'S', []);
  }

  /** A digit string followed by 'M': the digits are the first piece, the rest the second. */
  lemma SplitAfterDigits(a: string, rest: string)
    requires AllDigits(a) && 'M' !in rest
    ensures 'M' in a + "M" + rest
    ensures Split(a + "M" + rest, 'M') == [a, rest]
  {
    DigitsLackChar(a, 'M');
    assert a + "M" + rest == a + ['M'] + rest;
    assert (a + "M" + rest)[|a|] == 'M';
    SplitAtFirst(a, 'M', rest);
    var r := Split(rest, 'M');
    assert |r| == 1;
  }

  lemma MinutesSecondsOfPieces(x: string, m: nat, s: nat)
    requires 'M' in x
    requires ParseInt(Split(x, 'M')[0]) == Some(m)
    requires SecondsPart(Split(x, 'M')[1]) == Some(s)
    ensures MinutesSeconds(x) == Some(TotalSeconds(m, s))
  {
    var pieces := Split(x, 'M');
    var minutes := ParseInt(pieces[0]);
    var seconds := SecondsPart(pieces[1]);
    assert minutes == Some(m) && seconds == Some(s);
  }

  /** `<a>M<b>S`, for digit strings `a` and `b`, converts to `a * 60 + b`. */
  lemma MinutesSecondsOfDigits(a: string, b: string)
    requires a != [] && AllDigits(a) && b != [] && AllDigits(b)
    ensures 'P' !in a + "M" + (b + "S")
    ensures MinutesSeconds(a + "M" + (b + "S")) == Some(TotalSeconds(DecimalValue(a), DecimalValue(b)))
  {
    var rest := b + "S";
    var x := a + "M" + rest;
    DigitsLackChar(a, 'P');
    DigitsLackChar(b, 'P');
    DigitsLackChar(b, 'M');
    SplitAfterDigits(a, rest);
    SecondsPartOfDigits(b);
    MinutesSecondsOfPieces(x, DecimalValue(a), DecimalValue(b));
  }

  /**
   * `PT<a>M<b>S` converts to `a * 60 + b` seconds for any non-empty digit
   * strings, leading zeros included ("PT01M05S" is 65).
   */
  lemma MinutesAndSeconds(a: string, b: string)
    requires a != [] && AllDigits(a) && b != [] && AllDigits(b)
    ensures IsoSeconds("PT" + a + "M" + b + "S") == Some(DecimalValue(a) * 60 + DecimalValue(b))
  {
    MinutesSecondsOfDigits(a, b);
    ConvertedAfterPT(a, "M", b, "S", Some(DecimalValue(a) * 60 + DecimalValue(b)));
  }

  /** In particular `PT{m}M{s}S`, written with Python's `str`, converts back to `m * 60 + s`. */
  lemma ShownMinutesAndSeconds(m: nat, s: nat)
    ensures IsoSeconds("PT" + ShowNat(m) + "M" + ShowNat(s) + "S") == Some(m * 60 + s)
  {
    ParseShowNat(m);
    ParseShowNat(s);
    ParsedMinutesAndSeconds(ShowNat(m), ShowNat(s), m, s);
  }

  /** The same, stated by what `int()` reads from each component. */
  lemma ParsedMinutesAndSeconds(a: string, b: string, m: nat, s: nat)
    requires ParseInt(a) == Some(m) && ParseInt(b) == Some(s)
    ensures IsoSeconds("PT" + a + "M" + b + "S") == Some(m * 60 + s)
  {
    MinutesAndSeconds(a, b);
  }

  /** `PT<b>S`, without minutes, converts to `b` seconds. */
  lemma SecondsOnly(b: string)
    requires b != [] && AllDigits(b)
    ensures IsoSeconds("PT" + b + "S") == Some(DecimalValue(b))
  {
    var x := b + "S";
    assert 'P' !in x && 'M' !in x by {
      DigitsLackChar(b, 'P');
      DigitsLackChar(b, 'M');
    }
    assert MinutesSeconds(x) == Some(DecimalValue(b)) by {
      SecondsPartOfDigits(b);
    }
    ConvertedAfterPrefix(b, "S", Some(DecimalValue(b)));
  }

  /** `PT<a>M`, without seconds, converts to `a * 60` seconds. */
  lemma MinutesOnly(a: string)
    requires a != [] && AllDigits(a)
    ensures IsoSeconds("PT" + a + "M") == Some(DecimalValue(a) * 60)
  {
    var x := a + "M";
    assert 'P' !in x by {
      DigitsLackChar(a, 'P');
    }
    assert MinutesSeconds(x) == Some(DecimalValue(a) * 60) by {
      assert x == a + "M" + [];
      SplitAfterDigits(a, []);
      var pieces := Split(x, 'M');
      assert pieces == [a, []];
      assert ParseInt(pieces[0]) == Some(DecimalValue(a));
      assert SecondsPart(pieces[1]) == Some(0);
    }
    ConvertedAfterPrefix(a, "M", Some(DecimalValue(a) * 60));
  }

  /** An hours component makes the minutes text non-numeric: `PT<h>H<m>M` raises. */
  lemma HoursRejected(h: string, m: string)
    requires AllDigits(h) && AllDigits(m)
    ensures IsoSeconds("PT" + h + "H" + m + "M") == None
  {
    var minutesPart := h + "H" + m;
    var x := minutesPart + "M";
    assert 'P' !in x && 'M' !in minutesPart by {
      DigitsLackChar(h, 'P');
      DigitsLackChar(m, 'P');
      DigitsLackChar(h, 'M');
      DigitsLackChar(m, 'M');
    }
    assert MinutesSeconds(x) == None by {
      assert x == minutesPart + ['M'] + [];
      assert x[|minutesPart|] == 'M';
      SplitAtFirst(minutesPart, 'M', []);
      assert minutesPart[|h|] == 'H';
      assert ParseInt(Split(x, 'M')[0]) == None;
    }
    assert IsoSeconds("PT" + x) == None by {
      LeadingPT(x);
    }
    Regroup("PT", h, "H", m, "M");
  }

  /**
   * Two regroupings of a five-part concatenation. They are stated over
   * plain strings so that callers get them without the solver reasoning
   * about sequence equality while facts about the parts and `IsoSeconds` are in scope.
   */
  lemma Regroup(p: string, a: string, b: string, c: string, d: string)
    ensures p + a + b + c + d == p + (a + b + c + d)
    ensures p + a + b + c + d == p + (a + b + (c + d))
  {
  }

  /** The two-part form of `ConvertedAfterPT`. */
  lemma ConvertedAfterPrefix(a: string, b: string, v: Option<int>)
    requires 'P' !in a + b
    requires MinutesSeconds(a + b) == v
    ensures IsoSeconds("PT" + a + b) == v
  {
    LeadingPT(a + b);
    assert "PT" + a + b == "PT" + (a + b);
  }

  /**
   * `PT` followed by four parts converts as the parts do without it. Kept
   * apart from any facts about the parts, which would otherwise make the
   * solver explore the concatenations.
   */
  lemma ConvertedAfterPT(a: string, b: string, c: string, d: string, v: Option<int>)
    requires 'P' !in a + b + (c + d)
    requires MinutesSeconds(a + b + (c + d)) == v
    ensures IsoSeconds("PT" + a + b + c + d) == v
  {
    LeadingPT(a + b + (c + d));
    Regroup("PT", a, b, c, d);
  }

  /** A string without "PT" keeps the default of 30 seconds. */
  lemma NoPTKeepsDefault(iso: string)
    requires !Contains(iso, "PT")
    ensures IsoSeconds(iso) == Some(DefaultSeconds)
  {
  }

  /** A string with "PT" but neither `M` nor `S` gives 0 seconds, not the default. */
  lemma NoComponentsGiveZero(iso: string)
    requires Contains(iso, "PT") && 'M' !in iso && 'S' !in iso
    ensures IsoSeconds(iso) == Some(0)
  {
    ReplaceAllKeepsCharAbsent(iso, "PT", "", 'M');
    ReplaceAllKeepsCharAbsent(iso, "PT", "", 'S');
  }

  /** A duration in days, "P1D", has no "PT" and keeps the default. */
  lemma ExampleDays()
    ensures IsoSeconds("P1D") == Some(DefaultSeconds)
  {
    var d := "P1D";
    forall i: nat | i <= |d| ensures !OccursAt(d, "PT", i) {
      if i < |d| - 1 {
        assert d[i..][1] == d[i + 1];
      }
    }
    NoPTKeepsDefault(d);
  }

  /** "PT1M30S" is 90 seconds. */
  lemma ExampleMinutesAndSeconds()
    ensures IsoSeconds("PT1M30S") == Some(90)
  {
    assert IsoSeconds("PT" + "1" + "M" + "30" + "S") == Some(90) by {
      assert AllDigits("1") && AllDigits("30");
      assert DecimalValue("1") == 1 && DecimalValue("30") == 30 by {
        assert "30"[..1] == "3";
      }
      MinutesAndSeconds("1", "30");
    }
    assert "PT" + "1" + "M" + "30" + "S" == "PT1M30S";
  }

  /** Leading zeros do not matter: "PT01M05S" is 65 seconds. */
  lemma ExampleLeadingZeros()
    ensures IsoSeconds("PT01M05S") == Some(65)
  {
    assert IsoSeconds("PT" + "01" + "M" + "05" + "S") == Some(65) by {
      assert DecimalValue("01") == 1 && DecimalValue("05") == 5 by {
        assert AllDigits("1") && AllDigits("5");
        assert "0" + "1" == "01" && "0" + "5" == "05";
        LeadingZero("1");
        LeadingZero("5");
      }
      MinutesAndSeconds("01", "05");
    }
    assert "PT" + "01" + "M" + "05" + "S" == "PT01M05S";
  }

  /** "PT45S" is 45 seconds. */
  lemma ExampleSecondsOnly()
    ensures IsoSeconds("PT45S") == Some(45)
  {
    assert IsoSeconds("PT" + "45" + "S") == Some(45) by {
      assert AllDigits("45");
      assert DecimalValue("45") == 45 by {
        assert "45"[..1] == "4";
      }
      SecondsOnly("45");
    }
    assert "PT" + "45" + "S" == "PT45S";
  }

  /** "PT2M" is 120 seconds. */
  lemma ExampleMinutesOnly()
    ensures IsoSeconds("PT2M") == Some(120)
  {
    assert IsoSeconds("PT" + "2" + "M") == Some(120) by {
      assert AllDigits("2") && DecimalValue("2") == 2;
      MinutesOnly("2");
    }
    assert "PT" + "2" + "M" == "PT2M";
  }

  /** "PT1H2M" raises, so the request ends as not found. */
  lemma ExampleHours()
    ensures IsoSeconds("PT1H2M") == None
  {
    assert IsoSeconds("PT" + "1" + "H" + "2" + "M") == None by {
      assert AllDigits("1") && AllDigits("2");
      HoursRejected("1", "2");
    }
    assert "PT" + "1" + "H" + "2" + "M" == "PT1H2M";
  }
}
