/**
 * What `parse_published_to_iso` promises, stated on `Normalize`: the
 * relative rule's arithmetic, the ISO-8601 rules, the inputs that yield the
 * empty result, the overflow of the code as written, and idempotence for a
 * printer whose output the parser reads back.
 */
module NormalizeLaws {
  import opened Wrappers
  import opened Text
  import opened Timestamp

  // ---------------------------------------------------------------------
  // The relative rule
  // ---------------------------------------------------------------------

  /**
   * A relative phrase, with any whitespace around it, normalizes to the
   * anchor minus the count times the length of its unit, or to the empty
   * result when that instant is not representable; as written, the
   * unrepresentable instant raises instead.
   */
  lemma RelativePhrase(raw: string, lead: string, digits: string, gap: string, word: string, gap2: string, ago: string, trail: string,
                       unit: string, runTs: string, cal: Calendar, now: int)
    requires raw == lead + Phrase(digits, gap, word, gap2, ago) + trail
    requires AllSpace(lead) && AllSpace(trail)
    requires IsPhrase(digits, gap, word, gap2, ago, unit)
    requires forall x :: 0 <= x < |word| ==> IsAsciiLetter(word[x]) || word[x] == '\U{212a}'
    ensures var t := Before(AnchorInstant(runTs, cal, now), DecimalValue(digits), UnitLength(unit));
      && Normalize(raw, runTs, cal, now) == (if InRange(t) then cal.toIso(t) else "")
      && NormalizeAsWritten(raw, runTs, cal, now) == (if InRange(t) then Success(cal.toIso(t)) else Failure(OverflowError))
  {
    PhraseGroups(lead, digits, gap, word, gap2, ago, trail, unit, cal);
    assert UnitSeconds(Lower(word)) == Some(UnitLength(unit)) by {
      UnitWordsLower(unit);
      LowerMatched(word, unit);
      UnitSecondsOfWord(unit);
    }
    NormalizeOfMatch(raw, runTs, cal, now, DecimalValue(digits), word, UnitLength(unit));
  }

  /**
   * A relative phrase whose unit text, once lower-cased, contains none of
   * the unit names normalizes to the empty result (the `else` of the unit
   * tests).
   */
  lemma UnknownUnitPhrase(raw: string, lead: string, digits: string, gap: string, word: string, gap2: string, ago: string, trail: string,
                          unit: string, runTs: string, cal: Calendar, now: int)
    requires raw == lead + Phrase(digits, gap, word, gap2, ago) + trail
    requires AllSpace(lead) && AllSpace(trail)
    requires IsPhrase(digits, gap, word, gap2, ago, unit)
    requires UnitSeconds(Lower(word)).None?
    ensures Normalize(raw, runTs, cal, now) == "" && NormalizeAsWritten(raw, runTs, cal, now) == Success("")
  {
    PhraseGroups(lead, digits, gap, word, gap2, ago, trail, unit, cal);
    var m := MatchRelative(Strip(raw)).value;
    assert m == RelMatch(DecimalValue(digits), word);
  }

  /**
   * The unit tests' `else` is reachable: a dotless `ı` matches the pattern's
   * `i` case-insensitively but stays `ı` when lower-cased, so
   * `5 mınutes ago` matches the pattern and yet normalizes to the empty result.
   */
  lemma DotlessUnitIsUnknown(word: string, runTs: string, cal: Calendar, now: int)
    requires word == "m\U{131}nutes"
    ensures Normalize(Phrase("5", " ", word, " ", "ago"), runTs, cal, now) == ""
  {
    DotlessMatches(word);
    DotlessNamesNoUnit(word);
    var none: string := [];
    var raw := Phrase("5", " ", word, " ", "ago");
    assert raw == none + raw + none;
    UnknownUnitPhrase(raw, none, "5", " ", word, " ", "ago", none, "minutes", runTs, cal, now);
  }

  /** `5 mınutes ago` has the shape of a relative phrase in minutes. */
  lemma DotlessMatches(word: string)
    requires word == "m\U{131}nutes"
    ensures IsPhrase("5", " ", word, " ", "ago", "minutes")
  {
    DotlessLowerKept(word);
  }

  /** Lower-casing leaves `mınutes` as it is: `ı` is already lower-case. */
  lemma DotlessLowerKept(word: string)
    requires word == "m\U{131}nutes"
    ensures Lower(word) == word
  {
    LowerOfKept(word);
  }

  /** `mınutes` lower-cased names none of the units. */
  lemma DotlessNamesNoUnit(word: string)
    requires word == "m\U{131}nutes"
    ensures UnitSeconds(Lower(word)).None?
  {
    DotlessLowerKept(word);
    assert !Contains(word, "minute") by { MissingLetter(word, "minute", 'i'); }
    assert !Contains(word, "hour") by { MissingLetter(word, "hour", 'h'); }
    assert !Contains(word, "day") by { MissingLetter(word, "day", 'd'); }
    assert !Contains(word, "week") by { MissingLetter(word, "week", 'w'); }
  }

  /**
   * The corrected normalizer differs from the code as written only where the
   * latter raises: there it yields the empty result.
   */
  lemma CorrectionAbsorbsOverflow(raw: string, runTs: string, cal: Calendar, now: int)
    ensures NormalizeAsWritten(raw, runTs, cal, now).Success? ==> Normalize(raw, runTs, cal, now) == NormalizeAsWritten(raw, runTs, cal, now).value
    ensures NormalizeAsWritten(raw, runTs, cal, now).Failure? ==> Normalize(raw, runTs, cal, now) == ""
  {
  }

  /**
   * `10000000 days ago` reaches before year 1 from any representable
   * anchor: as written the subtraction raises `OverflowError` out of the
   * normalizer (and out of the run loop that calls it), while the corrected
   * normalizer yields the empty result.
   */
  lemma OverflowEscapes(digits: string, runTs: string, cal: Calendar, now: int)
    requires digits == "10000000" && InRange(now)
    ensures NormalizeAsWritten(Phrase(digits, " ", "days", " ", "ago"), runTs, cal, now) == Failure(OverflowError)
    ensures Normalize(Phrase(digits, " ", "days", " ", "ago"), runTs, cal, now) == ""
  {
    assert IsPhrase(digits, " ", "days", " ", "ago", "days");
    var none: string := [];
    var raw := Phrase(digits, " ", "days", " ", "ago");
    assert raw == none + raw + none;
    RelativePhrase(raw, none, digits, " ", "days", " ", "ago", none, "days", runTs, cal, now);
    TenMillion();
    TenMillionDaysBeforeYearOne(AnchorInstant(runTs, cal, now), DecimalValue(digits));
  }

  /** Ten million days before any anchor the clock can return lies before year 1. */
  lemma TenMillionDaysBeforeYearOne(anchor: int, count: nat)
    requires InRange(anchor) && count == 10000000
    ensures !InRange(Before(anchor, count, UnitLength("days")))
  {
  }

  lemma TenMillion()
    ensures DecimalValue("10000000") == 10000000
  {
    DecimalAppend("", '1');
    assert "" + ['1'] == "1";
    DecimalAppend("1", '0');
    assert "1" + ['0'] == "10";
    DecimalAppend("10", '0');
    assert "10" + ['0'] == "100";
    DecimalAppend("100", '0');
    assert "100" + ['0'] == "1000";
    DecimalAppend("1000", '0');
    assert "1000" + ['0'] == "10000";
    DecimalAppend("10000", '0');
    assert "10000" + ['0'] == "100000";
    DecimalAppend("100000", '0');
    assert "100000" + ['0'] == "1000000";
    DecimalAppend("1000000", '0');
    assert "1000000" + ['0'] == "10000000";
  }

  /** `Normalize` on text that only the relative rule matches, and the unit tests pick `secs`. */
  lemma NormalizeOfMatch(raw: string, runTs: string, cal: Calendar, now: int, count: nat, unitText: string, secs: nat)
    requires raw != [] && IsoBranch(Strip(raw), cal) == None
    requires var m := MatchRelative(Strip(raw)); m.Some? && m.value.count == count && m.value.unit == unitText
    requires UnitSeconds(Lower(unitText)) == Some(secs)
    ensures var t := Before(AnchorInstant(runTs, cal, now), count, secs);
      && Normalize(raw, runTs, cal, now) == (if InRange(t) then cal.toIso(t) else "")
      && NormalizeAsWritten(raw, runTs, cal, now) == (if InRange(t) then Success(cal.toIso(t)) else Failure(OverflowError))
  {
    RelativeInstantOf(count, unitText, secs, runTs, cal, now);
    var m := MatchRelative(Strip(raw)).value;
    assert m == RelMatch(count, unitText);
  }

  lemma RelativeInstantOf(count: nat, unitText: string, secs: nat, runTs: string, cal: Calendar, now: int)
    requires UnitSeconds(Lower(unitText)) == Some(secs)
    ensures RelativeInstant(RelMatch(count, unitText), runTs, cal, now) == Some(Before(AnchorInstant(runTs, cal, now), count, secs))
  {
  }

  // ---------------------------------------------------------------------
  // Text no rule takes
  // ---------------------------------------------------------------------

  /** Whitespace-only input normalizes to the empty result. */
  lemma BlankIsEmpty(raw: string, runTs: string, cal: Calendar, now: int)
    requires AllSpace(raw)
    ensures Normalize(raw, runTs, cal, now) == ""
  {
    StripAllSpace(raw);
  }

  /** When neither ISO-8601 rule nor the relative pattern applies, the result is empty. */
  lemma NoRuleTaken(raw: string, runTs: string, cal: Calendar, now: int)
    requires IsoBranch(Strip(raw), cal).None? && MatchRelative(Strip(raw)).None?
    ensures Normalize(raw, runTs, cal, now) == ""
  {
  }

  /** Text without digits, `T` or `Z`, such as `garbage text`, normalizes to the empty result. */
  lemma NoRuleIsEmpty(raw: string, runTs: string, cal: Calendar, now: int)
    requires forall x :: 0 <= x < |raw| ==> raw[x] != 'T' && raw[x] != 'Z' && !IsDigit(raw[x])
    ensures Normalize(raw, runTs, cal, now) == ""
  {
    var p := Strip(raw);
    StripChars(raw);
    assert forall x :: 0 <= x < |p| ==> p[x] != 'T' && p[x] != 'Z' && !IsDigit(p[x]);
    assert IsoBranch(p, cal).None? by {
      assert 'T' !in p;
      if |p| > 0 {
        assert p[|p| - 1..][0] == p[|p| - 1];
      }
    }
    assert MatchRelative(p).None? by {
      var k := SkipSpaces(p, 0);
      assert SkipDigits(p, k) == k;
    }
    NoRuleTaken(raw, runTs, cal, now);
  }

  lemma GarbageIsEmpty(runTs: string, cal: Calendar, now: int)
    ensures Normalize("garbage text", runTs, cal, now) == ""
  {
    NoRuleIsEmpty("garbage text", runTs, cal, now);
  }

  // ---------------------------------------------------------------------
  // The ISO-8601 rules
  // ---------------------------------------------------------------------

  /** When an ISO-8601 rule yields a result, that result is the normalized value. */
  lemma IsoRuleTaken(raw: string, s: string, runTs: string, cal: Calendar, now: int)
    requires raw != [] && IsoBranch(Strip(raw), cal) == Some(s)
    ensures Normalize(raw, runTs, cal, now) == s
  {
  }

  /** The `Z` rule on a stripped string that parses as an aware time. */
  lemma ZuluRule(p: string, wall: int, offset: int, cal: Calendar)
    requires EndsWith(p, "Z")
    requires cal.fromIso(ReplaceAll(p, 'Z', "+00:00")) == Some(Stamp(wall, Some(offset)))
    requires InRange(wall - offset)
    ensures IsoBranch(p, cal) == Some(cal.toIso(wall - offset))
  {
  }

  /**
   * A string ending in `Z` that parses once `Z` reads `+00:00` is rendered as
   * the UTC instant it denotes.
   */
  lemma ZuluRendered(raw: string, wall: int, offset: int, runTs: string, cal: Calendar, now: int)
    requires raw != [] && EndsWith(Strip(raw), "Z")
    requires cal.fromIso(ReplaceAll(Strip(raw), 'Z', "+00:00")) == Some(Stamp(wall, Some(offset)))
    requires InRange(wall - offset)
    ensures Normalize(raw, runTs, cal, now) == cal.toIso(wall - offset)
  {
    ZuluRule(Strip(raw), wall, offset, cal);
    IsoRuleTaken(raw, cal.toIso(wall - offset), runTs, cal, now);
  }

  /**
   * A string ending in `Z` that does not parse normalizes to the empty result:
   * the offset rule and the relative rule are not reached.
   */
  lemma ZuluUnparsedIsEmpty(raw: string, runTs: string, cal: Calendar, now: int)
    requires raw != [] && EndsWith(Strip(raw), "Z")
    requires cal.fromIso(ReplaceAll(Strip(raw), 'Z', "+00:00")).None?
    ensures Normalize(raw, runTs, cal, now) == ""
  {
    ZuluNotRelative(Strip(raw));
    NoRuleTaken(raw, runTs, cal, now);
  }

  /** The offset rule on a stripped string that parses as an aware time. */
  lemma OffsetRule(p: string, wall: int, offset: int, cal: Calendar)
    requires !EndsWith(p, "Z") && 'T' in p && '+' in p
    requires cal.fromIso(p) == Some(Stamp(wall, Some(offset)))
    requires InRange(wall - offset)
    ensures IsoBranch(p, cal) == Some(cal.toIso(wall - offset))
  {
  }

  /**
   * A string not ending in `Z` that holds `T` and `+` and parses as an aware
   * time is rendered as the UTC instant it denotes.
   */
  lemma OffsetRendered(raw: string, wall: int, offset: int, runTs: string, cal: Calendar, now: int)
    requires raw != [] && !EndsWith(Strip(raw), "Z")
    requires 'T' in Strip(raw) && '+' in Strip(raw)
    requires cal.fromIso(Strip(raw)) == Some(Stamp(wall, Some(offset)))
    requires InRange(wall - offset)
    ensures Normalize(raw, runTs, cal, now) == cal.toIso(wall - offset)
  {
    OffsetRule(Strip(raw), wall, offset, cal);
    IsoRuleTaken(raw, cal.toIso(wall - offset), runTs, cal, now);
  }

  /**
   * A date-time without a `Z`, followed by `Z`, is parsed with `+00:00` in
   * place of the `Z` and rendered as the instant it denotes.
   */
  lemma ZuluOfDate(date: string, wall: int, runTs: string, cal: Calendar, now: int)
    requires date != [] && !IsSpace(date[0]) && 'Z' !in date
    requires cal.fromIso(date + "+00:00") == Some(Stamp(wall, Some(0)))
    requires InRange(wall)
    ensures Normalize(date + "Z", runTs, cal, now) == cal.toIso(wall)
  {
    ZuluSuffix(date);
    ZuluRendered(date + "Z", wall, 0, runTs, cal, now);
  }

  /** Appending `Z` to a date-time without `Z` gives stripped text that ends in `Z` and reads `+00:00` for it. */
  lemma ZuluSuffix(date: string)
    requires date != [] && !IsSpace(date[0]) && 'Z' !in date
    ensures Strip(date + "Z") == date + "Z" && EndsWith(date + "Z", "Z")
    ensures ReplaceAll(date + "Z", 'Z', "+00:00") == date + "+00:00"
  {
    var raw := date + "Z";
    assert IsStripped(raw);
    StripStripped(raw);
    assert raw[|raw| - 1..] == "Z";
    ReplaceAllConcat(date, "Z", 'Z', "+00:00");
    ReplaceAllAbsent(date, 'Z', "+00:00");
    assert ReplaceAll("Z", 'Z', "+00:00") == "+00:00";
  }

  /**
   * The scenario of the parser test: `2026-02-25T04:32:30Z` is parsed as
   * `2026-02-25T04:32:30+00:00` and rendered as that same instant in UTC,
   * which begins with the original date and time when the printer writes
   * the UTC wall clock first.
   */
  lemma ZuluTestScenario(date: string, wall: int, cal: Calendar, now: int)
    requires date == "2026-02-25T04:32:30"
    requires cal.fromIso(date + "+00:00") == Some(Stamp(wall, Some(0)))
    requires InRange(wall)
    ensures Normalize(date + "Z", "2026-02-25T05:00:00+00:00", cal, now) == cal.toIso(wall)
    ensures StartsWith(cal.toIso(wall), date) ==> StartsWith(Normalize(date + "Z", "2026-02-25T05:00:00+00:00", cal, now), "2026-02-25T04:32:30")
  {
    ZuluOfDate(date, wall, "2026-02-25T05:00:00+00:00", cal, now);
  }

  // ---------------------------------------------------------------------
  // A printer whose output the parser reads back
  // ---------------------------------------------------------------------

  /**
   * `isoformat` on an aware UTC instant: a stripped string with a `T` and a
   * `+00:00` offset and no `Z`, which `fromisoformat` reads back as the same
   * instant with offset zero.
   */
  predicate PrintsCanonically(cal: Calendar, t: int) {
    var s := cal.toIso(t);
    s != [] && IsStripped(s) && 'Z' !in s && 'T' in s && '+' in s && cal.fromIso(s) == Some(Stamp(t, Some(0)))
  }

  ghost predicate CanonicalPrinter(cal: Calendar) {
    forall t :: InRange(t) ==> PrintsCanonically(cal, t)
  }

  /** A normalized timestamp normalizes to itself. */
  lemma NormalizeIdempotent(raw: string, runTs: string, cal: Calendar, now: int)
    requires CanonicalPrinter(cal)
    ensures var r := Normalize(raw, runTs, cal, now); Normalize(r, runTs, cal, now) == r
  {
    var r := Normalize(raw, runTs, cal, now);
    if r != "" {
      var t :| InRange(t) && r == cal.toIso(t);
      PrintedNormalizes(t, runTs, cal, now);
    }
  }

  /** The rendering of a representable instant normalizes to itself. */
  lemma PrintedNormalizes(t: int, runTs: string, cal: Calendar, now: int)
    requires CanonicalPrinter(cal) && InRange(t)
    ensures Normalize(cal.toIso(t), runTs, cal, now) == cal.toIso(t)
  {
    var r := cal.toIso(t);
    assert PrintsCanonically(cal, t);
    StripStripped(r);
    assert !EndsWith(r, "Z") by {
      assert r[|r| - 1..][0] == r[|r| - 1];
    }
    OffsetRule(r, t, 0, cal);
    IsoRuleTaken(r, r, runTs, cal, now);
  }

  /** A run timestamp printed by the canonical printer anchors relative phrases at its own instant. */
  lemma AnchorOfPrintedRunTs(t: int, cal: Calendar, now: int)
    requires CanonicalPrinter(cal) && InRange(t)
    ensures AnchorInstant(cal.toIso(t), cal, now) == t
  {
    assert PrintsCanonically(cal, t);
    ReplaceAllAbsent(cal.toIso(t), 'Z', "+00:00");
  }
}
