/**
 * `parse_period`: turn the period text of a listing into a start and an end
 * date by trying the adapter's patterns in order, then the whole text as one
 * date.
 */
module Period {
  import opened Wrappers
  import opened Dates

  type Pattern = string

  /** `m.groups()` of a match: one entry per capture group, None for a group that took no part. */
  type Groups = seq<Option<string>>

  /** `re.search(pattern, text)`: the groups of the first match, or None when there is none. */
  type Searcher = (Pattern, string) -> Option<Groups>

  /** `dateparser.parse(text).date()`: None when the parser raises. */
  type DateParser = string -> Option<Date>

  /** The ISO strings of a parsed period; both absent when nothing parsed. */
  type DatePair = (Option<string>, Option<string>)

  /**
   * What one pattern yields: the two dates of a match with exactly two groups
   * that both parse, and None otherwise (no match, another number of groups,
   * a group that did not take part or does not parse).
   */
  function PatternDates(search: Searcher, parse: DateParser, p: Pattern, raw: string): (r: Option<(Date, Date)>)
    ensures search(p, raw).None? ==> r.None?
    ensures search(p, raw).Some? && |search(p, raw).value| != 2 ==> r.None?
    ensures r.Some? ==>
              && search(p, raw).Some? && |search(p, raw).value| == 2
              && search(p, raw).value[0].Some? && parse(search(p, raw).value[0].value) == Some(r.value.0)
              && search(p, raw).value[1].Some? && parse(search(p, raw).value[1].value) == Some(r.value.1)
    ensures search(p, raw).Some? && |search(p, raw).value| == 2
            && search(p, raw).value[0].Some? && parse(search(p, raw).value[0].value).Some?
            && search(p, raw).value[1].Some? && parse(search(p, raw).value[1].value).Some? ==>
              r == Some((parse(search(p, raw).value[0].value).value, parse(search(p, raw).value[1].value).value))
  {
    match search(p, raw)
    case None => None
    case Some(g) =>
      if |g| == 2 && g[0].Some? && g[1].Some?
         && parse(g[0].value).Some? && parse(g[1].value).Some?
      then Some((parse(g[0].value).value, parse(g[1].value).value))
      else None
  }

  /** Pattern `k` is the first of `ps` that yields dates. */
  predicate FirstUsable(search: Searcher, parse: DateParser, ps: seq<Pattern>, raw: string, k: int) {
    0 <= k < |ps| && PatternDates(search, parse, ps[k], raw).Some?
    && forall j :: 0 <= j < k ==> PatternDates(search, parse, ps[j], raw).None?
  }

  /** The `for p in patterns` search: the dates of the first usable pattern. */
  function FirstPatternDates(search: Searcher, parse: DateParser, ps: seq<Pattern>, raw: string): (r: Option<(Date, Date)>)
    ensures forall k :: FirstUsable(search, parse, ps, raw, k) ==> r == PatternDates(search, parse, ps[k], raw)
    ensures r.None? <==> forall k :: 0 <= k < |ps| ==> PatternDates(search, parse, ps[k], raw).None?
  {
    if ps == [] then None
    else match PatternDates(search, parse, ps[0], raw)
      case Some(pair) => Some(pair)
      case None =>
        var r := FirstPatternDates(search, parse, ps[1..], raw);
        assert forall k :: FirstUsable(search, parse, ps, raw, k) ==> FirstUsable(search, parse, ps[1..], raw, k - 1);
        r
  }

  /** When some pattern yields dates, a first such pattern exists. */
  lemma {:induction false} FirstUsableExists(search: Searcher, parse: DateParser, ps: seq<Pattern>, raw: string, k: int)
    requires 0 <= k < |ps| && PatternDates(search, parse, ps[k], raw).Some?
    ensures exists f :: FirstUsable(search, parse, ps, raw, f)
  {
    if PatternDates(search, parse, ps[0], raw).Some? {
      assert FirstUsable(search, parse, ps, raw, 0);
    } else {
      FirstUsableExists(search, parse, ps[1..], raw, k - 1);
      var f :| FirstUsable(search, parse, ps[1..], raw, f);
      assert FirstUsable(search, parse, ps, raw, f + 1);
    }
  }

  function IsoPair(d: (Date, Date)): DatePair {
    (Some(Iso(d.0)), Some(Iso(d.1)))
  }

  /**
   * `parse_period(raw, patterns)`. Empty or absent text gives no dates; the
   * first pattern that yields two dates decides; when none does, the whole
   * text parsed as one date gives a one-day period; otherwise no dates.
   */
  function ParsePeriod(search: Searcher, parse: DateParser, raw: Option<string>, ps: seq<Pattern>): (r: DatePair)
    ensures raw.None? || raw.value == "" ==> r == (None, None)
    ensures r.0.Some? <==> r.1.Some?
    ensures raw.Some? && raw.value != "" ==>
              forall k :: FirstUsable(search, parse, ps, raw.value, k) ==>
                r == IsoPair(PatternDates(search, parse, ps[k], raw.value).value)
    ensures raw.Some? && raw.value != ""
            && (forall k :: 0 <= k < |ps| ==> PatternDates(search, parse, ps[k], raw.value).None?) ==>
              r == (match parse(raw.value)
                    case Some(d) => (Some(Iso(d)), Some(Iso(d)))
                    case None => (None, None))
  {
    if raw.None? || raw.value == "" then (None, None)
    else match FirstPatternDates(search, parse, ps, raw.value)
      case Some(pair) => IsoPair(pair)
      case None =>
        match parse(raw.value)
        case Some(d) => (Some(Iso(d)), Some(Iso(d)))
        case None => (None, None)
  }

  /** Patterns after a usable one are never consulted. */
  lemma {:induction false} LaterPatternsIgnored(search: Searcher, parse: DateParser, raw: Option<string>,
                                                ps: seq<Pattern>, qs: seq<Pattern>)
    requires raw.Some? && exists k :: 0 <= k < |ps| && PatternDates(search, parse, ps[k], raw.value).Some?
    ensures ParsePeriod(search, parse, raw, ps + qs) == ParsePeriod(search, parse, raw, ps)
  {
    FirstPatternDatesPrefix(search, parse, raw.value, ps, qs);
  }

  lemma {:induction false} FirstPatternDatesPrefix(search: Searcher, parse: DateParser, raw: string,
                                                   ps: seq<Pattern>, qs: seq<Pattern>)
    requires exists k :: 0 <= k < |ps| && PatternDates(search, parse, ps[k], raw).Some?
    ensures FirstPatternDates(search, parse, ps + qs, raw) == FirstPatternDates(search, parse, ps, raw)
  {
    assert ps != [];
    assert (ps + qs)[0] == ps[0];
    if PatternDates(search, parse, ps[0], raw).None? {
      var k :| 0 <= k < |ps| && PatternDates(search, parse, ps[k], raw).Some?;
      assert ps[1..][k - 1] == ps[k];
      assert (ps + qs)[1..] == ps[1..] + qs;
      FirstPatternDatesPrefix(search, parse, raw, ps[1..], qs);
    }
  }

  /** A pattern that yields nothing can be dropped without changing the result. */
  lemma SkippedPattern(search: Searcher, parse: DateParser, raw: Option<string>, p: Pattern, ps: seq<Pattern>)
    requires raw.Some? && PatternDates(search, parse, p, raw.value).None?
    ensures ParsePeriod(search, parse, raw, [p] + ps) == ParsePeriod(search, parse, raw, ps)
  {
    assert ([p] + ps)[1..] == ps;
  }
}
