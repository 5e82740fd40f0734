/** Year extraction from period strings, as `createTimelineFromResume` does
    it for each role, for each certificate and for the sort's start year.

    The regular expressions involved are
      full range    `(\w+\.?)\s+(\d{4})\s*-\s*(?:(\w+\.?)\s+(\d{4})|Present)`
      single date   `(\w+\.?)\s+(\d{4})`
      first year    `(\d{4})`
    each searched for its leftmost match. In all three every quantifier is
    forced: a shorter `\w+` leaves a word character where `.`, or white space
    is required, a shorter `\s+` or `\s*` leaves white space where a digit,
    `-`, a word character or `P` is required. So each match at a given
    start index is computed by a scanner without backtracking. */
module Years {
  import opened Text

  /** Start year and end year of one role when nothing matches. */
  const FallbackRoleYear: int := 2020

  /** Year of a certificate whose period holds no four digits. */
  const FallbackCertYear: int := 2023

  /** The end of the run of word characters starting at p. */
  function WordEnd(s: string, p: nat): (e: nat)
    requires p <= |s|
    ensures p <= e <= |s|
    ensures forall k :: p <= k < e ==> IsWordChar(s[k])
    ensures e == |s| || !IsWordChar(s[e])
    decreases |s| - p
  {
    if p < |s| && IsWordChar(s[p]) then WordEnd(s, p + 1) else p
  }

  /** `\d{4}` at index i. */
  predicate FourDigitsAt(s: string, i: nat) {
    i + 4 <= |s| && IsDigit(s[i]) && IsDigit(s[i + 1]) && IsDigit(s[i + 2]) && IsDigit(s[i + 3])
  }

  /** `parseInt` of the four digits at index i. */
  function FourDigitValue(s: string, i: nat): (v: int)
    requires FourDigitsAt(s, i)
    ensures 0 <= v <= 9999
  {
    1000 * DigitValue(s[i]) + 100 * DigitValue(s[i + 1]) + 10 * DigitValue(s[i + 2]) + DigitValue(s[i + 3])
  }

  /** `(\w+\.?)\s+(\d{4})` matched starting exactly at p: the index of the
      four digits. */
  function MonthYearAt(s: string, p: nat): (r: Option<nat>)
    requires p <= |s|
    ensures r.Some? ==> p < r.value && FourDigitsAt(s, r.value)
  {
    if p < |s| && IsWordChar(s[p]) then
      var w := WordEnd(s, p);
      var a := if w < |s| && s[w] == '.' then w + 1 else w;
      if a < |s| && IsSpace(s[a]) then
        var d := SkipSpaces(s, a);
        if FourDigitsAt(s, d) then Some(d) else None
      else None
    else None
  }

  /** WordEnd lands on w when [p, w) are word characters and w is not. */
  lemma WordEndAt(s: string, p: nat, w: nat)
    requires p <= w <= |s|
    requires forall k :: p <= k < w ==> IsWordChar(s[k])
    requires w == |s| || !IsWordChar(s[w])
    ensures WordEnd(s, p) == w
    decreases w - p
  {
    if p < w {
      WordEndAt(s, p + 1, w);
    }
  }

  /** `\w+\.?` read from p to a: word characters up to w, at least one, then
      a `.` when a is w + 1. */
  predicate WordDot(s: string, p: nat, w: nat, a: nat) {
    && p < w <= |s| && (forall k :: p <= k < w ==> IsWordChar(s[k]))
    && (a == w || (a == w + 1 && w < |s| && s[w] == '.'))
  }

  /** `(\w+\.?)\s+(\d{4})` read at p: a word with an optional `.` up to a,
      at least one white-space character, then four digits at d. */
  predicate DateShape(s: string, p: nat, w: nat, a: nat, d: nat) {
    WordDot(s, p, w, a) && a < d && SpaceRun(s, a, d) && FourDigitsAt(s, d)
  }

  /** Declarative reading of the single-date pattern at p with its digits
      at d. */
  ghost predicate DatePattern(s: string, p: nat, d: nat) {
    exists w: nat, a: nat :: DateShape(s, p, w, a, d)
  }

  /** The single-date scanner finds the digits at d exactly when the
      pattern holds at p with its digits there. */
  lemma MonthYearAtMeans(s: string, p: nat, d: nat)
    requires p <= |s|
    ensures MonthYearAt(s, p) == Some(d) <==> DatePattern(s, p, d)
  {
    if MonthYearAt(s, p) == Some(d) {
      var w, a := MonthYearAtSound(s, p);
    }
    if DatePattern(s, p, d) {
      var w: nat, a: nat :| DateShape(s, p, w, a, d);
      MonthYearAtComplete(s, p, w, a, d);
    }
  }

  lemma MonthYearAtSound(s: string, p: nat) returns (w: nat, a: nat)
    requires p <= |s| && MonthYearAt(s, p).Some?
    ensures DateShape(s, p, w, a, MonthYearAt(s, p).value)
  {
    w := WordEnd(s, p);
    a := if w < |s| && s[w] == '.' then w + 1 else w;
  }

  lemma MonthYearAtComplete(s: string, p: nat, w: nat, a: nat, d: nat)
    requires DateShape(s, p, w, a, d)
    ensures p <= |s| && MonthYearAt(s, p) == Some(d)
  {
    WordEndAt(s, p, w);
    SkipSpacesAt(s, a, d);
  }

  /** What a full-range match yields: the index of the start year's digits
      and, unless the range ends with `Present`, that of the end year's. */
  datatype RangeMatch = RangeMatch(start: nat, end: Option<nat>)

  /** What follows the start year's digits at d in a full range: `\s*-\s*`
      and then the end year's digits, or `Present` (`None`). The first
      alternative after the dash is tried before `Present`. */
  function RangeTail(s: string, d: nat): (r: Option<Option<nat>>)
    requires d + 4 <= |s|
    ensures r.Some? && r.value.Some? ==> FourDigitsAt(s, r.value.value)
  {
    DashEnd(s, SkipSpaces(s, d + 4))
  }

  /** The `-` at k and, after optional white space, the end alternative. */
  function DashEnd(s: string, k: nat): (r: Option<Option<nat>>)
    requires k <= |s|
    ensures r.Some? && r.value.Some? ==> FourDigitsAt(s, r.value.value)
  {
    if k < |s| && s[k] == '-' then EndAt(s, SkipSpaces(s, k + 1)) else None
  }

  /** The end alternative read at q: a date, tried first, or `Present`. */
  function EndAt(s: string, q: nat): (r: Option<Option<nat>>)
    requires q <= |s|
    ensures r.Some? && r.value.Some? ==> FourDigitsAt(s, r.value.value)
  {
    match MonthYearAt(s, q)
    case Some(e) => Some(Some(e))
    case None => if OccursAt(s, "Present", q) then Some(None) else None
  }

  /** The full-range pattern matched starting exactly at p. */
  function FullRangeAt(s: string, p: nat): (r: Option<RangeMatch>)
    requires p <= |s|
    ensures r.Some? ==> FourDigitsAt(s, r.value.start)
    ensures r.Some? && r.value.end.Some? ==> FourDigitsAt(s, r.value.end.value)
    ensures r.Some? ==> MonthYearAt(s, p) == Some(r.value.start)
  {
    match MonthYearAt(s, p)
    case None => None
    case Some(d) =>
      match RangeTail(s, d)
      case Some(end) => Some(RangeMatch(d, end))
      case None => None
  }

  /** `\s*-\s*` from e to q with its `-` at k. */
  predicate DashAt(s: string, e: nat, k: nat, q: nat) {
    SpaceRun(s, e, k) && k < |s| && s[k] == '-' && SpaceRun(s, k + 1, q)
  }

  /** What follows the dash at q: a date with its digits at the end index,
      or, only where no date starts, the text `Present`. */
  ghost predicate RangeEnd(s: string, q: nat, end: Option<nat>) {
    match end
    case Some(e) => DatePattern(s, q, e)
    case None => (forall e: nat :: !DatePattern(s, q, e)) && OccursAt(s, "Present", q)
  }

  /** The dash after the start year's digits at d, with its `-` at k, and
      the end alternative at q. */
  ghost predicate RangeRest(s: string, d: nat, end: Option<nat>, k: nat, q: nat) {
    DashAt(s, d + 4, k, q) && RangeEnd(s, q, end)
  }

  /** Declarative reading of the full-range pattern at p: a date, then
      `\s*-\s*` right after its digits, then the end alternative. */
  ghost predicate RangePattern(s: string, p: nat, m: RangeMatch) {
    DatePattern(s, p, m.start) && exists k: nat, q: nat :: RangeRest(s, m.start, m.end, k, q)
  }

  /** The full-range scanner yields m exactly when the pattern holds at p
      with the years where m says. */
  lemma FullRangeAtMeans(s: string, p: nat, m: RangeMatch)
    requires p <= |s|
    ensures FullRangeAt(s, p) == Some(m) <==> RangePattern(s, p, m)
  {
    if FullRangeAt(s, p) == Some(m) {
      MonthYearAtMeans(s, p, m.start);
      var k, q := RangeTailSound(s, m.start, m.end);
    }
    if RangePattern(s, p, m) {
      MonthYearAtMeans(s, p, m.start);
      var k: nat, q: nat :| RangeRest(s, m.start, m.end, k, q);
      RangeTailComplete(s, m.start, m.end, k, q);
    }
  }

  lemma RangeTailSound(s: string, d: nat, end: Option<nat>) returns (k: nat, q: nat)
    requires d + 4 <= |s| && RangeTail(s, d) == Some(end)
    ensures RangeRest(s, d, end, k, q)
  {
    k, q := TailParts(s, d);
    EndSound(s, q, end);
  }

  /** What the scanner accepts after the dash is the end alternative. */
  lemma EndSound(s: string, q: nat, end: Option<nat>)
    requires q <= |s| && EndAt(s, q) == Some(end)
    ensures RangeEnd(s, q, end)
  {
    if end.Some? {
      MonthYearAtMeans(s, q, end.value);
    } else {
      forall e: nat ensures !DatePattern(s, q, e) {
        MonthYearAtMeans(s, q, e);
      }
    }
  }

  lemma RangeTailComplete(s: string, d: nat, end: Option<nat>, k: nat, q: nat)
    requires d + 4 <= |s| && RangeRest(s, d, end, k, q)
    ensures RangeTail(s, d) == Some(end)
  {
    EndComplete(s, k, q, end);
    SkipSpacesAt(s, d + 4, k);
    RangeTailAt(s, d, end, k, q);
  }

  lemma RangeTailAt(s: string, d: nat, end: Option<nat>, k: nat, q: nat)
    requires d + 4 <= |s| && SkipSpaces(s, d + 4) == k && k < |s| && s[k] == '-'
    requires SkipSpaces(s, k + 1) == q && EndAt(s, q) == Some(end)
    ensures RangeTail(s, d) == Some(end)
  {
    assert DashEnd(s, k) == Some(end);
  }

  /** The end alternative at q starts with no white space, so the scanner
      reaches q and accepts it there. */
  lemma EndComplete(s: string, k: nat, q: nat, end: Option<nat>)
    requires k < |s| && SpaceRun(s, k + 1, q) && RangeEnd(s, q, end)
    ensures SkipSpaces(s, k + 1) == q
    ensures EndAt(s, q) == Some(end)
  {
    if end.Some? {
      var w: nat, a: nat :| DateShape(s, q, w, a, end.value);
      MonthYearAtComplete(s, q, w, a, end.value);
    } else {
      assert s[q] == "Present"[0];
      if MonthYearAt(s, q).Some? {
        MonthYearAtMeans(s, q, MonthYearAt(s, q).value);
        assert false;
      }
    }
    SkipSpacesAt(s, k + 1, q);
  }

  /** The full-range pattern at each start index of s. */
  function RangeAt(s: string): nat -> Option<RangeMatch> {
    (p: nat) => if p <= |s| then FullRangeAt(s, p) else None
  }

  /** The single-date pattern at each start index of s. */
  function DateAt(s: string): nat -> Option<nat> {
    (p: nat) => if p <= |s| then MonthYearAt(s, p) else None
  }

  /** Leftmost full-range match in s. */
  function FirstFullRange(s: string): (r: Option<RangeMatch>)
    ensures r.Some? ==> FourDigitsAt(s, r.value.start)
    ensures r.Some? && r.value.end.Some? ==> FourDigitsAt(s, r.value.end.value)
  {
    FirstSome(RangeAt(s), 0, |s|)
  }

  /** Leftmost single-date match in s: the index of its digits. */
  function FirstMonthYear(s: string): (r: Option<nat>)
    ensures r.Some? ==> FourDigitsAt(s, r.value)
  {
    FirstSome(DateAt(s), 0, |s|)
  }

  /** Leftmost `\d{4}` at or after i. */
  function FirstFourDigits(s: string, i: nat): (r: Option<nat>)
    requires i <= |s|
    ensures r.Some? ==> i <= r.value && FourDigitsAt(s, r.value)
    ensures r.Some? ==> forall j :: i <= j < r.value ==> !FourDigitsAt(s, j)
    ensures r.None? ==> forall j :: i <= j ==> !FourDigitsAt(s, j)
    decreases |s| - i
  {
    if FourDigitsAt(s, i) then Some(i)
    else if i == |s| then None
    else FirstFourDigits(s, i + 1)
  }

  datatype Span = Span(start: int, end: int)

  /** The start and end year of one role's period; `currentYear` is the
      wall-clock year the source reads for `Present`. */
  function RoleSpan(period: string, currentYear: int): (r: Span)
    ensures 0 <= r.start <= 9999
    ensures 0 <= r.end <= 9999 || r.end == currentYear
  {
    var t := Trim(period);
    match FirstFullRange(t)
    case Some(m) =>
      Span(FourDigitValue(t, m.start),
           match m.end case Some(e) => FourDigitValue(t, e) case None => currentYear)
    case None =>
      match FirstMonthYear(t)
      case Some(d) => Span(FourDigitValue(t, d), FourDigitValue(t, d))
      case None => Span(FallbackRoleYear, FallbackRoleYear)
  }

  /** A role whose trimmed period has a full range, leftmost at j, spans
      from its first year to its second, or to the current year when it ends
      in `Present`. */
  lemma {:induction false} RoleSpanFullRange(period: string, currentYear: int, j: nat)
    requires var t := Trim(period);
      j <= |t| && FullRangeAt(t, j).Some? && forall k :: 0 <= k < j ==> FullRangeAt(t, k).None?
    ensures var t := Trim(period); var m := FullRangeAt(t, j).value;
      && RoleSpan(period, currentYear).start == FourDigitValue(t, m.start)
      && RoleSpan(period, currentYear).end == (if m.end.Some? then FourDigitValue(t, m.end.value) else currentYear)
  {
    var t := Trim(period);
    FirstSomeAt(RangeAt(t), 0, j, |t|);
  }

  /** Without a full range, a role whose trimmed period has a single date,
      leftmost at j, starts and ends in that date's year. */
  lemma {:induction false} RoleSpanSingleDate(period: string, currentYear: int, j: nat)
    requires var t := Trim(period);
      && (forall k :: 0 <= k <= |t| ==> FullRangeAt(t, k).None?)
      && j <= |t| && MonthYearAt(t, j).Some? && forall k :: 0 <= k < j ==> MonthYearAt(t, k).None?
    ensures var t := Trim(period); var d := MonthYearAt(t, j).value;
      RoleSpan(period, currentYear) == Span(FourDigitValue(t, d), FourDigitValue(t, d))
  {
    var t := Trim(period);
    FirstSomeNone(RangeAt(t), 0, |t|);
    FirstSomeAt(DateAt(t), 0, j, |t|);
  }

  /** A role whose period has no date at all spans 2020 to 2020. */
  lemma {:induction false} RoleSpanFallback(period: string, currentYear: int)
    requires var t := Trim(period); forall k :: 0 <= k <= |t| ==> MonthYearAt(t, k).None?
    ensures RoleSpan(period, currentYear) == Span(FallbackRoleYear, FallbackRoleYear)
  {
    var t := Trim(period);
    assert forall k :: 0 <= k <= |t| ==> FullRangeAt(t, k).None?;
    FirstSomeNone(RangeAt(t), 0, |t|);
    FirstSomeNone(DateAt(t), 0, |t|);
  }

  // The period examples of the source's comment. Each is proved for any
  // string with the example's characters, then applied to the example.

  predicate ClosedChars(t: string) {
    && |t| == 21
    && t[0] == 'F' && t[1] == 'e' && t[2] == 'b' && t[3] == '.' && t[4] == ' '
    && t[5] == '2' && t[6] == '0' && t[7] == '1' && t[8] == '9'
    && t[9] == ' ' && t[10] == '-' && t[11] == ' '
    && t[12] == 'F' && t[13] == 'e' && t[14] == 'b' && t[15] == '.' && t[16] == ' '
    && t[17] == '2' && t[18] == '0' && t[19] == '2' && t[20] == '1'
  }

  predicate OpenChars(t: string) {
    && |t| == 18
    && t[0] == 'J' && t[1] == 'a' && t[2] == 'n' && t[3] == ' '
    && t[4] == '2' && t[5] == '0' && t[6] == '2' && t[7] == '4'
    && t[8] == ' ' && t[9] == '-' && t[10] == ' '
    && t[11] == 'P' && t[12] == 'r' && t[13] == 'e' && t[14] == 's'
    && t[15] == 'e' && t[16] == 'n' && t[17] == 't'
  }

  predicate SingleChars(t: string) {
    && |t| == 8
    && t[0] == 'M' && t[1] == 'a' && t[2] == 'y' && t[3] == ' '
    && t[4] == '2' && t[5] == '0' && t[6] == '2' && t[7] == '1'
  }

  /** "Feb. 2019 - Feb. 2021" spans 2019 to 2021. */
  lemma ExampleClosedRange(currentYear: int)
    ensures RoleSpan("Feb. 2019 - Feb. 2021", currentYear) == Span(2019, 2021)
  {
    ClosedLiteral();
    ClosedSpan("Feb. 2019 - Feb. 2021", currentYear);
  }

  lemma ClosedLiteral()
    ensures ClosedChars("Feb. 2019 - Feb. 2021")
  {
    var t := "Feb. 2019 - Feb. 2021";
    assert |t| == 21;
    assert t[0] == 'F'; assert t[1] == 'e'; assert t[2] == 'b'; assert t[3] == '.'; assert t[4] == ' ';
    assert t[5] == '2'; assert t[6] == '0'; assert t[7] == '1'; assert t[8] == '9';
    assert t[9] == ' '; assert t[10] == '-'; assert t[11] == ' ';
    assert t[12] == 'F'; assert t[13] == 'e'; assert t[14] == 'b'; assert t[15] == '.'; assert t[16] == ' ';
    assert t[17] == '2'; assert t[18] == '0'; assert t[19] == '2'; assert t[20] == '1';
  }

  /** "Jan 2024 - Present" spans 2024 to the current year. */
  lemma ExampleOpenRange(currentYear: int)
    ensures RoleSpan("Jan 2024 - Present", currentYear) == Span(2024, currentYear)
  {
    OpenLiteral();
    OpenSpan("Jan 2024 - Present", currentYear);
  }

  lemma OpenLiteral()
    ensures OpenChars("Jan 2024 - Present")
  {
    var t := "Jan 2024 - Present";
    assert |t| == 18;
    assert t[0] == 'J'; assert t[1] == 'a'; assert t[2] == 'n'; assert t[3] == ' ';
    assert t[4] == '2'; assert t[5] == '0'; assert t[6] == '2'; assert t[7] == '4';
    assert t[8] == ' '; assert t[9] == '-'; assert t[10] == ' ';
    assert t[11] == 'P'; assert t[12] == 'r'; assert t[13] == 'e'; assert t[14] == 's';
    assert t[15] == 'e'; assert t[16] == 'n'; assert t[17] == 't';
  }

  /** "May 2021" starts and ends in 2021. */
  lemma ExampleSingleDate(currentYear: int)
    ensures RoleSpan("May 2021", currentYear) == Span(2021, 2021)
  {
    SingleSpan("May 2021", currentYear);
  }

  lemma ClosedSpan(t: string, currentYear: int)
    requires ClosedChars(t)
    ensures RoleSpan(t, currentYear) == Span(2019, 2021)
  {
    TrimFixed(t);
    ClosedTail(t);
    RoleSpanFullRange(t, currentYear, 0);
  }

  lemma ClosedTail(t: string)
    requires ClosedChars(t)
    ensures FullRangeAt(t, 0) == Some(RangeMatch(5, Some(17)))
  {
    ClosedDates(t);
    SkipSpacesAt(t, 9, 10);
    SkipSpacesAt(t, 11, 12);
    RangeTailAt(t, 5, Some(17), 10, 12);
  }

  lemma ClosedDates(t: string)
    requires ClosedChars(t)
    ensures MonthYearAt(t, 0) == Some(5) && MonthYearAt(t, 12) == Some(17)
  {
    assert DateShape(t, 0, 3, 4, 5) && DateShape(t, 12, 15, 16, 17);
    MonthYearAtComplete(t, 0, 3, 4, 5);
    MonthYearAtComplete(t, 12, 15, 16, 17);
  }

  lemma OpenSpan(t: string, currentYear: int)
    requires OpenChars(t)
    ensures RoleSpan(t, currentYear) == Span(2024, currentYear)
  {
    TrimFixed(t);
    OpenTail(t);
    RoleSpanFullRange(t, currentYear, 0);
  }

  lemma OpenTail(t: string)
    requires OpenChars(t)
    ensures FullRangeAt(t, 0) == Some(RangeMatch(4, None))
  {
    OpenDates(t);
    assert OccursAt(t, "Present", 11);
    SkipSpacesAt(t, 8, 9);
    SkipSpacesAt(t, 10, 11);
    RangeTailAt(t, 4, None, 9, 11);
  }

  lemma OpenDates(t: string)
    requires OpenChars(t)
    ensures MonthYearAt(t, 0) == Some(4) && MonthYearAt(t, 11).None?
  {
    assert DateShape(t, 0, 3, 3, 4);
    MonthYearAtComplete(t, 0, 3, 3, 4);
    WordEndAt(t, 11, 18);
  }

  lemma SingleSpan(t: string, currentYear: int)
    requires SingleChars(t)
    ensures RoleSpan(t, currentYear) == Span(2021, 2021)
  {
    TrimFixed(t);
    forall k | 0 <= k <= |t| ensures FullRangeAt(t, k).None? {
      if FullRangeAt(t, k).Some? {
        var dash, _ := RangeParts(t, k);
      }
    }
    assert DateShape(t, 0, 3, 3, 4);
    MonthYearAtComplete(t, 0, 3, 3, 4);
    RoleSpanSingleDate(t, currentYear, 0);
  }

  /** A full-range match needs a `-`: without one (an en dash, say) the
      role is a single date and ends the year it starts. */
  lemma {:induction false} NoDashSingleYear(period: string, currentYear: int)
    requires !Contains(period, "-")
    ensures RoleSpan(period, currentYear).start == RoleSpan(period, currentYear).end
  {
    var t := Trim(period);
    NoDashNoRange(period, t);
    FirstSomeNone(RangeAt(t), 0, |t|);
  }

  lemma NoDashNoRange(period: string, t: string)
    requires !Contains(period, "-") && t == Trim(period)
    ensures forall j :: 0 <= j <= |t| ==> FullRangeAt(t, j).None?
  {
    if !Contains(t, "-") {
      forall j | 0 <= j <= |t| ensures FullRangeAt(t, j).None? {
        if FullRangeAt(t, j).Some? {
          RangeHasDash(t, j);
        }
      }
    } else {
      ContainsSlice(period, LeadingSpace(period), LeadingSpace(period) + |t|, "-");
    }
  }

  /** Where a full-range match has its `-` and, when it ends in `Present`,
      that text. */
  lemma RangeParts(s: string, j: nat) returns (k: nat, q: nat)
    requires j <= |s| && FullRangeAt(s, j).Some?
    ensures k < |s| && s[k] == '-'
    ensures FullRangeAt(s, j).value.end.None? ==> OccursAt(s, "Present", q)
  {
    var d := MonthYearAt(s, j).value;
    assert FullRangeAt(s, j) == Some(RangeMatch(d, RangeTail(s, d).value));
    k, q := TailParts(s, d);
    if RangeTail(s, d).value.None? {
      EndParts(s, q);
    }
  }

  lemma TailParts(s: string, d: nat) returns (k: nat, q: nat)
    requires d + 4 <= |s| && RangeTail(s, d).Some?
    ensures k < |s| && s[k] == '-' && q <= |s| && EndAt(s, q) == RangeTail(s, d)
    ensures DashAt(s, d + 4, k, q)
  {
    k := SkipSpaces(s, d + 4);
    q := SkipSpaces(s, k + 1);
    assert DashEnd(s, k) == RangeTail(s, d);
  }

  lemma EndParts(s: string, q: nat)
    requires q <= |s| && EndAt(s, q).Some? && EndAt(s, q).value.None?
    ensures OccursAt(s, "Present", q)
  {
  }

  /** Every full-range match has its `-`. */
  lemma RangeHasDash(s: string, j: nat)
    requires j <= |s| && FullRangeAt(s, j).Some?
    ensures Contains(s, "-")
  {
    var k, _ := RangeParts(s, j);
    OccursChar(s, '-', k);
    OccursContains(s, "-", k);
  }

  /** A full-range match ending in `Present` has that text in it. */
  lemma OpenRangeHasPresent(s: string, j: nat)
    requires j <= |s| && FullRangeAt(s, j).Some? && FullRangeAt(s, j).value.end.None?
    ensures Contains(s, "Present")
  {
    var _, q := RangeParts(s, j);
    OccursContains(s, "Present", q);
  }

  /** The current year is used only for a range ending in `Present`, and
      such a period contains the text `Present`: without it the role's span
      does not depend on the clock. */
  lemma {:induction false} PresentNeedsWord(period: string, y1: int, y2: int)
    requires !Contains(period, "Present")
    ensures RoleSpan(period, y1) == RoleSpan(period, y2)
  {
    var t := Trim(period);
    NoPresentNoOpenRange(period, t);
  }

  lemma NoPresentNoOpenRange(period: string, t: string)
    requires !Contains(period, "Present") && t == Trim(period)
    ensures FirstFullRange(t).None? || FirstFullRange(t).value.end.Some?
  {
    if FirstFullRange(t).Some? && FirstFullRange(t).value.end.None? {
      FirstOpenRangeHasPresent(t);
      TrimContains(period, "Present");
    }
  }

  lemma FirstOpenRangeHasPresent(s: string)
    requires FirstFullRange(s).Some? && FirstFullRange(s).value.end.None?
    ensures Contains(s, "Present")
  {
    var j := FirstSomeIndex(RangeAt(s), 0, |s|);
    OpenRangeHasPresent(s, j);
  }

  /** `getStartYear`: the first four digits of a timeline year string, or 0. */
  function StartYear(year: string): (v: int)
    ensures 0 <= v <= 9999
  {
    match FirstFourDigits(year, 0)
    case Some(i) => FourDigitValue(year, i)
    case None => 0
  }

  /** A certificate's year: the first four digits of its period, or 2023. */
  function CertYear(period: string): (v: int)
    ensures 0 <= v <= 9999
  {
    match FirstFourDigits(period, 0)
    case Some(i) => FourDigitValue(period, i)
    case None => FallbackCertYear
  }

  /** Both readings take the leftmost four digits; only their fallbacks
      differ. */
  lemma FirstYearMeans(s: string, j: nat)
    ensures (forall i :: 0 <= i ==> !FourDigitsAt(s, i)) ==> StartYear(s) == 0 && CertYear(s) == FallbackCertYear
    ensures FourDigitsAt(s, j) && (forall i :: 0 <= i < j ==> !FourDigitsAt(s, i)) ==>
      StartYear(s) == FourDigitValue(s, j) && CertYear(s) == FourDigitValue(s, j)
  {
    if FourDigitsAt(s, j) && (forall i :: 0 <= i < j ==> !FourDigitsAt(s, i)) {
      assert FirstFourDigits(s, 0) == Some(j);
    }
  }

  /** The four printed digits of a year from 1000 to 9999 read back as that
      year. */
  lemma {:induction false} FourDigitsRoundTrip(n: nat, rest: string)
    requires 1000 <= n <= 9999
    ensures FourDigitsAt(NatToString(n) + rest, 0)
    ensures FourDigitValue(NatToString(n) + rest, 0) == n
  {
    var x := NatToString(n);
    FourDigitWidth(n);
    NatToStringRoundTrip(n);
    FourDigitsValue(x);
    var s := x + rest;
    assert s[0] == x[0] && s[1] == x[1] && s[2] == x[2] && s[3] == x[3];
  }

  lemma FourDigitsValue(x: string)
    requires |x| == 4 && AllDigits(x)
    ensures DigitsValue(x) == 1000 * DigitValue(x[0]) + 100 * DigitValue(x[1]) + 10 * DigitValue(x[2]) + DigitValue(x[3])
  {
    var x1, x2, x3 := x[..1], x[..2], x[..3];
    assert x1[..0] == [] && x1[0] == x[0];
    assert x2[..1] == x1 && x2[1] == x[1];
    assert x3[..2] == x2 && x3[2] == x[2];
    assert x[..3] == x3;
    assert DigitsValue(x1) == DigitValue(x[0]);
    assert DigitsValue(x2) == 10 * DigitValue(x[0]) + DigitValue(x[1]);
    assert DigitsValue(x3) == 100 * DigitValue(x[0]) + 10 * DigitValue(x[1]) + DigitValue(x[2]);
  }

  /** `getStartYear` of a year string that opens with a year from 1000 to
      9999 is that year. */
  lemma StartYearOfPrinted(n: nat, rest: string)
    requires 1000 <= n <= 9999
    ensures StartYear(NatToString(n) + rest) == n
  {
    FourDigitsRoundTrip(n, rest);
  }
}
