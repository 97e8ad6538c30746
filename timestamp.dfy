/**
 * The publication-time normalizer `parse_published_to_iso`: a raw,
 * loosely formatted publication string and the run's reference timestamp
 * become a UTC ISO-8601 string, or the empty string when no rule applies.
 *
 * Instants are whole seconds since 1970-01-01T00:00:00Z. The ISO-8601
 * parser (`datetime.fromisoformat`) and printer (`datetime.isoformat`) are
 * library code and are taken as the fields of a `Calendar` value.
 */
module Timestamp {
  import opened Wrappers
  import opened Text

  const MinuteSeconds: nat := 60
  const HourSeconds: nat := 3600
  const DaySeconds: nat := 86400
  const WeekSeconds: nat := 604800

  /** 0001-01-01T00:00:00Z, the earliest instant a Python `datetime` holds. */
  const MinInstant: int := -62135596800
  /** 9999-12-31T23:59:59Z, the latest whole second a Python `datetime` holds. */
  const MaxInstant: int := 253402300799

  predicate InRange(t: int) {
    MinInstant <= t <= MaxInstant
  }

  /**
   * What `datetime.fromisoformat` yields: the wall-clock reading (in seconds,
   * read as if it were UTC) and, for an aware value, its UTC offset in seconds.
   */
  datatype Stamp = Stamp(wall: int, offset: Option<int>)

  /**
   * The library calls the normalizer depends on: the ISO-8601 parser (`None`
   * where it raises), the printer of an aware UTC instant, and the offset of
   * the host's local time zone, which `astimezone` assumes for a naive value.
   */
  datatype Calendar = Calendar(fromIso: string -> Option<Stamp>, toIso: int -> string, localOffset: int)

  /**
   * `dt.astimezone(timezone.utc)`: the instant `dt` denotes, or `None` where
   * the conversion leaves the representable range and raises.
   */
  function ToUtc(st: Stamp, localOffset: int): (r: Option<int>)
    ensures r.Some? ==> InRange(r.value)
    ensures st.offset.Some? ==> (r.Some? <==> InRange(st.wall - st.offset.value))
    ensures st.offset.Some? && InRange(st.wall - st.offset.value) ==> r == Some(st.wall - st.offset.value)
    ensures st.offset.None? ==> (r.Some? <==> InRange(st.wall - localOffset))
    ensures st.offset.None? && InRange(st.wall - localOffset) ==> r == Some(st.wall - localOffset)
  {
    var t := match st.offset
      case Some(o) => st.wall - o
      case None => st.wall - localOffset;
    if InRange(t) then Some(t) else None
  }

  /** The result of converting and printing what the parser returned; `None` where either step raises. */
  function ParsedToIso(parsed: Option<Stamp>, cal: Calendar): (r: Option<string>)
    ensures r.Some? ==> exists t :: InRange(t) && r.value == cal.toIso(t)
  {
    match parsed
    case None => None
    case Some(st) =>
      match ToUtc(st, cal.localOffset)
      case None => None
      case Some(t) => Some(cal.toIso(t))
  }

  /**
   * The two ISO-8601 rules, which share one `try`: a string ending in `Z`
   * is parsed with every `Z` replaced by `+00:00`; otherwise a string that
   * contains `T` and either a `+` or a trailing `00:00` is parsed as it is.
   * When the `Z` rule fails, the offset rule is not tried.
   */
  function IsoBranch(p: string, cal: Calendar): (r: Option<string>)
    ensures r.Some? ==> exists t :: InRange(t) && r.value == cal.toIso(t)
  {
    if EndsWith(p, "Z") then
      ParsedToIso(cal.fromIso(ReplaceAll(p, 'Z', "+00:00")), cal)
    else if 'T' in p && ('+' in p || EndsWith(p, "00:00")) then
      ParsedToIso(cal.fromIso(p), cal)
    else
      None
  }

  // ---------------------------------------------------------------------
  // The relative-time pattern ^\s*(\d+)\s+(minute|minutes|hour|hours|day|days|week|weeks)\s+ago\s*$
  // matched case-insensitively on a `str`.
  // ---------------------------------------------------------------------

  const UnitWords: seq<string> := ["minute", "minutes", "hour", "hours", "day", "days", "week", "weeks"]

  /**
   * Case-insensitive equality of a code point with a lower-case ASCII letter
   * of the pattern, as Python's `re` decides it for `str` patterns: the
   * letter's upper case, and for `i`, `s` and `k` also the code points that
   * fold to them (dotted and dotless I, long s, the Kelvin sign).
   */
  predicate CharMatchesCI(c: char, letter: char) {
    || c == letter
    || ('a' <= letter <= 'z' && c as int == letter as int - 32)
    || (letter == 'i' && (c == '\U{130}' || c == '\U{131}'))
    || (letter == 's' && c == '\U{17f}')
    || (letter == 'k' && c == '\U{212a}')
  }

  predicate MatchesCI(s: string, word: string) {
    |s| == |word| && forall i :: 0 <= i < |s| ==> CharMatchesCI(s[i], word[i])
  }

  /** The position where the whitespace starting at `i` ends. */
  function SkipSpaces(p: string, i: nat): (k: nat)
    requires i <= |p|
    ensures i <= k <= |p|
    decreases |p| - i
  {
    if i < |p| && IsSpace(p[i]) then SkipSpaces(p, i + 1) else i
  }

  /** The position where the ASCII digits starting at `i` end. */
  function SkipDigits(p: string, i: nat): (k: nat)
    requires i <= |p|
    ensures i <= k <= |p|
    decreases |p| - i
  {
    if i < |p| && IsDigit(p[i]) then SkipDigits(p, i + 1) else i
  }

  /** `\s+ago\s*$` matches `p` from position `m` to its end. */
  predicate AgoTail(p: string, m: nat)
    requires m <= |p|
  {
    var a := SkipSpaces(p, m);
    a > m && a + 3 <= |p| && MatchesCI(p[a..a + 3], "ago") && SkipSpaces(p, a + 3) == |p|
  }

  /** Alternative `word` of the unit group, followed by the rest of the pattern, matches `p` from position `k`. */
  predicate UnitAlternative(p: string, k: nat, word: string)
    requires k <= |p|
  {
    k + |word| <= |p| && MatchesCI(p[k..k + |word|], word) && AgoTail(p, k + |word|)
  }

  /**
   * Where the unit group that starts at `k` ends: the alternatives are tried
   * in pattern order from the `n`-th on, and the first that matches wins.
   */
  function AlternativeFrom(p: string, k: nat, n: nat): (r: Option<nat>)
    requires k <= |p| && n <= |UnitWords|
    ensures r.Some? ==> k <= r.value <= |p|
    ensures r.Some? ==> IsUnitText(p[k..r.value])
    decreases |UnitWords| - n
  {
    if n == |UnitWords| then None
    else if UnitAlternative(p, k, UnitWords[n]) then Some(k + |UnitWords[n]|)
    else AlternativeFrom(p, k, n + 1)
  }

  /** `s` spells one of the unit words, case-insensitively. */
  predicate IsUnitText(s: string) {
    exists i :: 0 <= i < |UnitWords| && MatchesCI(s, UnitWords[i])
  }

  /** The two groups of a successful match: the count and the unit text as written. */
  datatype RelMatch = RelMatch(count: nat, unit: string)

  /** `REL_RE.match(p)`: after the leading whitespace, the rest of the pattern. */
  function MatchRelative(p: string): (r: Option<RelMatch>)
    ensures r.Some? ==> IsUnitText(r.value.unit)
  {
    MatchCount(p, SkipSpaces(p, 0))
  }

  /** `(\d+)` from position `i`, then the rest of the pattern. */
  function MatchCount(p: string, i: nat): Option<RelMatch>
    requires i <= |p|
  {
    var j := SkipDigits(p, i);
    if j == i then None else MatchGap(p, i, j)
  }

  /** `\s+` from position `j`, after the count `p[i..j]`, then the rest of the pattern. */
  function MatchGap(p: string, i: nat, j: nat): Option<RelMatch>
    requires i <= j <= |p|
  {
    var k := SkipSpaces(p, j);
    if k == j then None else CaptureGroups(p, i, j, k)
  }

  /** The unit group from position `k` and the groups of the match, the count being `p[i..j]`. */
  function CaptureGroups(p: string, i: nat, j: nat, k: nat): Option<RelMatch>
    requires i <= j <= k <= |p|
  {
    match AlternativeFrom(p, k, 0)
    case None => None
    case Some(e) => Some(RelMatch(DecimalValue(p[i..j]), p[k..e]))
  }

  /**
   * The seconds in one unit, chosen by substring tests on the lower-cased
   * unit text; `None` when no test succeeds (the `else` branch).
   */
  function UnitSeconds(unit: string): Option<nat> {
    if Contains(unit, "minute") then Some(MinuteSeconds)
    else if Contains(unit, "hour") then Some(HourSeconds)
    else if Contains(unit, "day") then Some(DaySeconds)
    else if Contains(unit, "week") then Some(WeekSeconds)
    else None
  }

  /**
   * The anchor of a relative time: `run_ts` (with `Z` read as `+00:00`, and
   * a naive value read as UTC) converted to UTC, or `now` where parsing or
   * converting `run_ts` raises.
   */
  function AnchorInstant(runTs: string, cal: Calendar, now: int): (t: int)
    ensures InRange(now) ==> InRange(t)
    ensures var parsed := cal.fromIso(ReplaceAll(runTs, 'Z', "+00:00"));
      && (parsed.None? ==> t == now)
      && (parsed.Some? && parsed.value.offset.None? ==>
            t == if InRange(parsed.value.wall) then parsed.value.wall else now)
      && (parsed.Some? && parsed.value.offset.Some? ==>
            t == if InRange(parsed.value.wall - parsed.value.offset.value) then parsed.value.wall - parsed.value.offset.value else now)
  {
    match cal.fromIso(ReplaceAll(runTs, 'Z', "+00:00"))
    case None => now
    case Some(st) =>
      var t := match st.offset
        case None => st.wall
        case Some(o) => st.wall - o;
      if InRange(t) then t else now
  }

  /**
   * The instant a matched relative phrase denotes (the anchor minus the count
   * of units), or `None` when the unit text passes none of the unit tests.
   * The instant may lie outside the representable range.
   */
  function RelativeInstant(m: RelMatch, runTs: string, cal: Calendar, now: int): Option<int> {
    match UnitSeconds(Lower(m.unit))
    case None => None
    case Some(secs) => Some(Before(AnchorInstant(runTs, cal, now), m.count, secs))
  }

  /** `anchor - timedelta(seconds=count * unitSeconds)`. */
  function Before(anchor: int, count: nat, unitSeconds: nat): int {
    anchor - count * unitSeconds
  }

  /** What Python raises out of `parse_published_to_iso`. */
  datatype Raised = OverflowError

  /**
   * `parse_published_to_iso` as written. The subtraction of the relative
   * rule is outside any `try`: an instant before year 1 raises out of the
   * function.
   */
  function NormalizeAsWritten(raw: string, runTs: string, cal: Calendar, now: int): (r: Result<string, Raised>)
    ensures r.Failure? ==> raw != "" && IsoBranch(Strip(raw), cal).None? && MatchRelative(Strip(raw)).Some?
  {
    if raw == "" then Success("")
    else
      var p := Strip(raw);
      match IsoBranch(p, cal)
      case Some(s) => Success(s)
      case None =>
        match MatchRelative(p)
        case None => Success("")
        case Some(m) =>
          match RelativeInstant(m, runTs, cal, now)
          case None => Success("")
          case Some(t) => if InRange(t) then Success(cal.toIso(t)) else Failure(OverflowError)
  }

  /**
   * `parse_published_to_iso` with the overflow absorbed: a relative phrase
   * that reaches outside the representable range yields the empty result,
   * like every other input no rule can normalize. The result is empty or the
   * rendering of a representable instant.
   */
  function Normalize(raw: string, runTs: string, cal: Calendar, now: int): (r: string)
    ensures raw == "" ==> r == ""
    ensures r == "" || exists t :: InRange(t) && r == cal.toIso(t)
  {
    if raw == "" then ""
    else
      var p := Strip(raw);
      match IsoBranch(p, cal)
      case Some(s) => s
      case None =>
        match MatchRelative(p)
        case None => ""
        case Some(m) =>
          match RelativeInstant(m, runTs, cal, now)
          case None => ""
          case Some(t) => if InRange(t) then cal.toIso(t) else ""
  }

  // ---------------------------------------------------------------------
  // The relative rule
  // ---------------------------------------------------------------------

  /** The length of one unit, by unit word: an independent table for the substring tests of `UnitSeconds`. */
  function UnitLength(unit: string): nat
    requires unit in UnitWords
  {
    if unit == "minute" || unit == "minutes" then 60
    else if unit == "hour" || unit == "hours" then 60 * 60
    else if unit == "day" || unit == "days" then 24 * 60 * 60
    else 7 * 24 * 60 * 60
  }

  /** The substring tests on a lower-case unit word pick that unit's length. */
  lemma UnitSecondsOfWord(unit: string)
    requires unit in UnitWords
    ensures UnitSeconds(unit) == Some(UnitLength(unit))
  {
    if unit == "minute" || unit == "minutes" {
      assert OccursAt(unit, "minute", 0);
    } else if unit == "hour" || unit == "hours" {
      assert OccursAt(unit, "hour", 0);
    } else if unit == "day" || unit == "days" {
      assert OccursAt(unit, "day", 0);
      assert !OccursAt(unit, "hour", 0);
    } else {
      assert OccursAt(unit, "week", 0);
      assert !OccursAt(unit, "hour", 0);
      assert !OccursAt(unit, "hour", 1);
      assert !OccursAt(unit, "day", 0);
      assert !OccursAt(unit, "day", 1);
      assert !OccursAt(unit, "day", 2);
    }
  }

  /** `SkipSpaces` stops exactly where a whitespace run ends. */
  lemma {:induction false} SkipSpacesTo(p: string, i: nat, j: nat)
    requires i <= j <= |p|
    requires forall x :: i <= x < j ==> IsSpace(p[x])
    requires j == |p| || !IsSpace(p[j])
    ensures SkipSpaces(p, i) == j
    decreases j - i
  {
    if i < j {
      SkipSpacesTo(p, i + 1, j);
    }
  }

  /** `SkipDigits` stops exactly where a digit run ends. */
  lemma {:induction false} SkipDigitsTo(p: string, i: nat, j: nat)
    requires i <= j <= |p|
    requires forall x :: i <= x < j ==> IsDigit(p[x])
    requires j == |p| || !IsDigit(p[j])
    ensures SkipDigits(p, i) == j
    decreases j - i
  {
    if i < j {
      SkipDigitsTo(p, i + 1, j);
    }
  }

  /** A letter of the pattern never matches whitespace, a digit or `+`. */
  lemma LetterMatchIsNoSpace(c: char, letter: char)
    requires 'a' <= letter <= 'z' && CharMatchesCI(c, letter)
    ensures !IsSpace(c) && !IsDigit(c) && c != '+'
    ensures letter == 'o' ==> c == 'o' || c == 'O'
  {
  }

  /** A gap, `ago` and nothing but whitespace after it, from position `m`, make an `AgoTail`. */
  lemma AgoTailAt(p: string, m: nat, a: nat)
    requires m < a && a + 3 <= |p|
    requires forall x :: m <= x < a ==> IsSpace(p[x])
    requires MatchesCI(p[a..a + 3], "ago")
    requires forall x :: a + 3 <= x < |p| ==> IsSpace(p[x])
    ensures AgoTail(p, m)
  {
    assert p[a..a + 3][0] == p[a];
    LetterMatchIsNoSpace(p[a], 'a');
    SkipSpacesTo(p, m, a);
    SkipSpacesTo(p, a + 3, |p|);
  }

  /** No `AgoTail` starts at a character that is not whitespace. */
  lemma NoAgoTailWithoutGap(p: string, m: nat)
    requires m < |p| && !IsSpace(p[m])
    ensures !AgoTail(p, m)
  {
  }

  /** An alternative whose first letter does not match the character at `k` fails. */
  lemma OtherLetterFails(p: string, k: nat, w: string)
    requires k < |p| && w != [] && !CharMatchesCI(p[k], w[0])
    ensures !UnitAlternative(p, k, w)
  {
    if k + |w| <= |p| {
      assert p[k..k + |w|][0] == p[k];
    }
  }

  /** A singular alternative fails where the text goes on with the plural `s`. */
  lemma SingularFails(p: string, k: nat, w: string)
    requires k + |w| < |p| && CharMatchesCI(p[k + |w|], 's')
    ensures !UnitAlternative(p, k, w)
  {
    LetterMatchIsNoSpace(p[k + |w|], 's');
    NoAgoTailWithoutGap(p, k + |w|);
  }

  lemma {:induction false} FirstAlternativeFrom(p: string, k: nat, n: nat, w: nat)
    requires k <= |p| && n <= w < |UnitWords| && UnitAlternative(p, k, UnitWords[w])
    requires forall x :: n <= x < w ==> !UnitAlternative(p, k, UnitWords[x])
    ensures AlternativeFrom(p, k, n) == Some(k + |UnitWords[w]|)
    decreases w - n
  {
    if n < w {
      assert !UnitAlternative(p, k, UnitWords[n]);
      FirstAlternativeFrom(p, k, n + 1, w);
      assert AlternativeFrom(p, k, n) == AlternativeFrom(p, k, n + 1);
    }
  }

  /**
   * The unit group captures exactly a word that matches a unit word when an
   * `AgoTail` follows it: an earlier alternative in pattern order either
   * starts with another letter or is the singular of a plural.
   */
  lemma UnitAt(p: string, k: nat, unit: string)
    requires unit in UnitWords && k + |unit| <= |p|
    requires MatchesCI(p[k..k + |unit|], unit) && AgoTail(p, k + |unit|)
    ensures AlternativeFrom(p, k, 0) == Some(k + |unit|)
  {
    var w :| 0 <= w < |UnitWords| && UnitWords[w] == unit;
    forall x | 0 <= x < w
      ensures !UnitAlternative(p, k, UnitWords[x])
    {
      EarlierAlternativeFails(p, k, x, w);
    }
    FirstAlternativeFrom(p, k, 0, w);
  }

  /** Where the `w`-th unit word matches at `k`, every earlier alternative fails there. */
  lemma EarlierAlternativeFails(p: string, k: nat, x: nat, w: nat)
    requires x < w < |UnitWords| && k + |UnitWords[w]| <= |p|
    requires MatchesCI(p[k..k + |UnitWords[w]|], UnitWords[w])
    ensures !UnitAlternative(p, k, UnitWords[x])
  {
    var u, unit := UnitWords[x], UnitWords[w];
    EarlierUnitWord(x, w);
    assert CharMatchesCI(p[k], unit[0]) by {
      assert p[k..k + |unit|][0] == p[k];
    }
    if u[0] == unit[0] {
      assert p[k..k + |unit|][|u|] == p[k + |u|];
      SingularFails(p, k, u);
    } else {
      OtherLetterFails(p, k, u);
    }
  }

  /**
   * A unit word earlier in pattern order than another starts with a letter
   * of its own (one the other's first character cannot match), or is that
   * word's singular.
   */
  lemma EarlierUnitWord(x: nat, w: nat)
    requires x < w < |UnitWords|
    ensures var u, v := UnitWords[x], UnitWords[w];
      u != [] && v != [] &&
      ((u[0] != v[0] && forall c :: CharMatchesCI(c, v[0]) ==> !CharMatchesCI(c, u[0]))
       || (w == x + 1 && |u| < |v| && v[|u|] == 's'))
  {
  }

  /** `MatchRelative` from the positions where its runs end. */
  lemma MatchRelativeAt(p: string, i: nat, j: nat, k: nat, e: nat)
    requires i < j < k <= e <= |p|
    requires SkipSpaces(p, 0) == i && SkipDigits(p, i) == j && SkipSpaces(p, j) == k
    requires AlternativeFrom(p, k, 0) == Some(e)
    ensures var m := MatchRelative(p); m.Some? && m.value.count == DecimalValue(p[i..j]) && m.value.unit == p[k..e]
  {
  }

  /** A relative phrase: a count, a gap, a unit word, a gap and `ago`. */
  function Phrase(digits: string, gap: string, word: string, gap2: string, ago: string): string {
    digits + gap + word + gap2 + ago
  }

  /** The pieces of a relative phrase have the shapes the pattern asks for. */
  predicate IsPhrase(digits: string, gap: string, word: string, gap2: string, ago: string, unit: string) {
    && |digits| > 0 && AllDigits(digits)
    && |gap| > 0 && AllSpace(gap)
    && unit in UnitWords && MatchesCI(word, unit)
    && |gap2| > 0 && AllSpace(gap2)
    && MatchesCI(ago, "ago")
  }

  /**
   * `^\s*(\d+)\s+(unit)\s+ago\s*$` matches a phrase with any surrounding
   * whitespace, and its groups are the count and the unit word as written.
   */
  lemma MatchRelativePhrase(lead: string, digits: string, gap: string, word: string, gap2: string, ago: string, trail: string, unit: string)
    requires AllSpace(lead) && AllSpace(trail)
    requires IsPhrase(digits, gap, word, gap2, ago, unit)
    ensures var m := MatchRelative(lead + digits + gap + word + gap2 + ago + trail);
      m.Some? && m.value.count == DecimalValue(digits) && m.value.unit == word
  {
    var p := lead + digits + gap + word + gap2 + ago + trail;
    var i := |lead|;
    var j := i + |digits|;
    var k := j + |gap|;
    var e := k + |word|;
    var a := e + |gap2|;
    var z := a + 3;
    assert p[..i] == lead;
    assert p[i..j] == digits;
    assert p[j..k] == gap;
    assert p[k..e] == word;
    assert p[e..a] == gap2;
    assert p[a..z] == ago;
    assert p[z..] == trail;
    assert p[0..i] == lead;
    SpaceRun(p, 0, i);
    DigitRun(p, i, j);
    SpaceRun(p, j, k);
    SpaceRun(p, e, a);
    assert p[z..|p|] == trail;
    SpaceRun(p, z, |p|);
    MatchRelativeRuns(p, i, j, k, a, unit);
  }

  /** A whitespace slice is a whitespace run of the text. */
  lemma SpaceRun(p: string, lo: nat, hi: nat)
    requires lo <= hi <= |p| && AllSpace(p[lo..hi])
    ensures forall x :: lo <= x < hi ==> IsSpace(p[x])
  {
    forall x | lo <= x < hi
      ensures IsSpace(p[x])
    {
      assert p[x] == p[lo..hi][x - lo];
    }
  }

  /** A slice of digits is a digit run of the text. */
  lemma DigitRun(p: string, lo: nat, hi: nat)
    requires lo <= hi <= |p| && AllDigits(p[lo..hi])
    ensures forall x :: lo <= x < hi ==> IsDigit(p[x])
  {
    forall x | lo <= x < hi
      ensures IsDigit(p[x])
    {
      assert p[x] == p[lo..hi][x - lo];
    }
  }

  lemma PhraseLayout(lead: string, digits: string, gap: string, word: string, gap2: string, ago: string, trail: string)
    ensures lead + Phrase(digits, gap, word, gap2, ago) + trail == lead + digits + gap + word + gap2 + ago + trail
  {
    assert lead + (digits + gap + word + gap2 + ago) == lead + digits + gap + word + gap2 + ago;
  }

  /** `MatchRelative` on text laid out as lead, count, gap, unit word, gap, `ago`, trail, by positions. */
  lemma MatchRelativeRuns(p: string, i: nat, j: nat, k: nat, a: nat, unit: string)
    requires unit in UnitWords && i < j < k && k + |unit| < a && a + 3 <= |p|
    requires forall x :: 0 <= x < i ==> IsSpace(p[x])
    requires forall x :: i <= x < j ==> IsDigit(p[x])
    requires forall x :: j <= x < k ==> IsSpace(p[x])
    requires MatchesCI(p[k..k + |unit|], unit)
    requires forall x :: k + |unit| <= x < a ==> IsSpace(p[x])
    requires MatchesCI(p[a..a + 3], "ago")
    requires forall x :: a + 3 <= x < |p| ==> IsSpace(p[x])
    ensures var m := MatchRelative(p);
      m.Some? && m.value.count == DecimalValue(p[i..j]) && m.value.unit == p[k..k + |unit|]
  {
    assert p[k..k + |unit|][0] == p[k];
    LetterMatchIsNoSpace(p[k], unit[0]);
    SkipSpacesTo(p, 0, i);
    SkipDigitsTo(p, i, j);
    SkipSpacesTo(p, j, k);
    AgoTailAt(p, k + |unit|, a);
    UnitAt(p, k, unit);
    MatchRelativeAt(p, i, j, k, k + |unit|);
  }

  /** The unit words are spelled in lower-case ASCII letters. */
  lemma UnitWordsLower(unit: string)
    requires unit in UnitWords
    ensures forall x :: 0 <= x < |unit| ==> 'a' <= unit[x] <= 'z'
  {
  }

  /**
   * Lower-casing a word of ASCII letters (the Kelvin sign allowed for `k`)
   * that matches a unit word yields that unit word.
   */
  lemma {:induction false} LowerMatched(word: string, unit: string)
    requires MatchesCI(word, unit)
    requires forall x :: 0 <= x < |unit| ==> 'a' <= unit[x] <= 'z'
    requires forall x :: 0 <= x < |word| ==> IsAsciiLetter(word[x]) || word[x] == '\U{212a}'
    ensures Lower(word) == unit
  {
    if word != [] {
      LowerMatched(word[1..], unit[1..]);
      assert LowerChar(word[0]) == [unit[0]];
      assert unit == [unit[0]] + unit[1..];
    }
  }

  /** A relative phrase holds no `+` and ends in `o` or `O`, so neither ISO-8601 rule applies to it. */
  lemma PhraseIsNotIso(digits: string, gap: string, word: string, gap2: string, ago: string, unit: string, cal: Calendar)
    requires IsPhrase(digits, gap, word, gap2, ago, unit)
    ensures IsoBranch(Phrase(digits, gap, word, gap2, ago), cal) == None
  {
    var core := Phrase(digits, gap, word, gap2, ago);
    UnitWordsLower(unit);
    forall x | 0 <= x < |core|
      ensures core[x] != '+'
    {
      var y := x - |digits + gap|;
      if 0 <= y < |word| {
        assert core[x] == word[y];
        LetterMatchIsNoSpace(word[y], unit[y]);
      } else if |digits + gap + word + gap2| <= x {
        var z := x - |digits + gap + word + gap2|;
        assert core[x] == ago[z];
        LetterMatchIsNoSpace(ago[z], "ago"[z]);
      }
    }
    LetterMatchIsNoSpace(ago[2], 'o');
    assert core[|core| - 1] == ago[2];
    assert core[|core| - 1..][0] == core[|core| - 1];
    assert core[|core| - 5..][4] == core[|core| - 1];
  }

  /**
   * A relative phrase with whitespace around it strips to the phrase, is not
   * taken by the ISO-8601 rules, and matches the relative pattern with the
   * count and the unit word as its groups.
   */
  lemma PhraseGroups(lead: string, digits: string, gap: string, word: string, gap2: string, ago: string, trail: string, unit: string,
                     cal: Calendar)
    requires AllSpace(lead) && AllSpace(trail)
    requires IsPhrase(digits, gap, word, gap2, ago, unit)
    ensures var p := Strip(lead + Phrase(digits, gap, word, gap2, ago) + trail);
      && p == Phrase(digits, gap, word, gap2, ago)
      && IsoBranch(p, cal) == None
      && var m := MatchRelative(p); m.Some? && m.value.count == DecimalValue(digits) && m.value.unit == word
  {
    var core := Phrase(digits, gap, word, gap2, ago);
    assert Strip(lead + core + trail) == core by {
      LetterMatchIsNoSpace(ago[2], 'o');
      assert core[|core| - 1] == ago[2];
      assert core[0] == digits[0];
      StripAround(lead, core, trail);
    }
    assert IsoBranch(core, cal) == None by {
      PhraseIsNotIso(digits, gap, word, gap2, ago, unit, cal);
    }
    assert var m := MatchRelative(core); m.Some? && m.value.count == DecimalValue(digits) && m.value.unit == word by {
      var none: string := [];
      MatchRelativePhrase(none, digits, gap, word, gap2, ago, none, unit);
      PhraseLayout(none, digits, gap, word, gap2, ago, none);
      assert none + core + none == core;
    }
  }

  /** Text ending in `Z` never matches the relative pattern, which ends in `ago` and whitespace. */
  lemma ZuluNotRelative(p: string)
    requires EndsWith(p, "Z")
    ensures MatchRelative(p).None?
  {
    assert p[|p| - 1..][0] == 'Z';
    if MatchRelative(p).Some? {
      MatchEnd(p);
      assert false;
    }
  }

  /** Text the relative pattern matches ends in whitespace or in the `o` of `ago`. */
  lemma MatchEnd(p: string)
    requires MatchRelative(p).Some?
    ensures |p| > 0 && (IsSpace(p[|p| - 1]) || CharMatchesCI(p[|p| - 1], 'o'))
  {
    var k := SkipSpaces(p, 0);
    var j := SkipDigits(p, k);
    var k2 := SkipSpaces(p, j);
    assert MatchCount(p, k).Some? && j != k;
    assert MatchGap(p, k, j).Some? && k2 != j;
    assert CaptureGroups(p, k, j, k2).Some?;
    AlternativeFound(p, k2, 0);
    AgoTailEnd(p, AlternativeFrom(p, k2, 0).value);
  }

  /** Text with an `AgoTail` ends in whitespace or in the `o` of `ago`. */
  lemma AgoTailEnd(p: string, m: nat)
    requires m <= |p| && AgoTail(p, m)
    ensures |p| > 0 && (IsSpace(p[|p| - 1]) || CharMatchesCI(p[|p| - 1], 'o'))
  {
    var a := SkipSpaces(p, m);
    AgoEndsTail(p, a + 3);
    if a + 3 == |p| {
      assert p[a..a + 3][2] == p[|p| - 1];
    }
  }

  /** A unit group that ends at `e` is followed by an `AgoTail`. */
  lemma {:induction false} AlternativeFound(p: string, k: nat, n: nat)
    requires k <= |p| && n <= |UnitWords| && AlternativeFrom(p, k, n).Some?
    ensures AgoTail(p, AlternativeFrom(p, k, n).value)
    decreases |UnitWords| - n
  {
    if !UnitAlternative(p, k, UnitWords[n]) {
      AlternativeFound(p, k, n + 1);
    }
  }

  /** Where `SkipSpaces` reaches the end from `m`, the text from `m` on is whitespace. */
  lemma {:induction false} AgoEndsTail(p: string, m: nat)
    requires m <= |p| && SkipSpaces(p, m) == |p|
    ensures forall x :: m <= x < |p| ==> IsSpace(p[x])
    decreases |p| - m
  {
    if m < |p| {
      AgoEndsTail(p, m + 1);
    }
  }
}
