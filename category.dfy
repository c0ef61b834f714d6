/**
 * `normalize_category`: classify a listing by keywords found in its raw
 * category and title, in a fixed priority order.
 */
module Category {
  import opened Wrappers
  import opened Strings

  const Exhibition: string := "전시"
  const Performance: string := "공연"
  const Education: string := "교육"
  const Festival: string := "축제"

  const ExhibitionKeywords: seq<string> := ["전시", "exhibition", "gallery"]
  const PerformanceKeywords: seq<string> := ["공연", "concert", "뮤지컬", "연극"]
  const EducationKeywords: seq<string> := ["교육", "강좌", "워크숍", "세미나"]
  const FestivalKeywords: seq<string> := ["축제", "festival"]

  /** The labels with their keyword lists, highest priority first. */
  const Rules: seq<(string, seq<string>)> := [
    (Exhibition, ExhibitionKeywords),
    (Performance, PerformanceKeywords),
    (Education, EducationKeywords),
    (Festival, FestivalKeywords)
  ]

  /** `any(k in base for k in keywords)`. */
  predicate AnyIn(base: string, keywords: seq<string>) {
    exists k :: k in keywords && Contains(base, k)
  }

  /** The text searched: `((raw_cat or "") + " " + title).lower()`. */
  function Base(title: string, rawCat: Option<string>): string {
    Lower(rawCat.GetOr("") + " " + title)
  }

  /** Rule `n` is the first whose keywords occur in `base`. */
  predicate FirstRule(base: string, n: int) {
    0 <= n < |Rules| && AnyIn(base, Rules[n].1)
    && forall m :: 0 <= m < n ==> !AnyIn(base, Rules[m].1)
  }

  /** The label of the first rule matching from rule `n` on, if any. */
  function Classify(base: string, n: nat): (r: Option<string>)
    requires n <= |Rules|
    ensures r.Some? <==> exists m :: n <= m < |Rules| && AnyIn(base, Rules[m].1)
    ensures forall m :: (n <= m < |Rules| && AnyIn(base, Rules[m].1)
                         && forall l :: n <= l < m ==> !AnyIn(base, Rules[l].1))
                        ==> r == Some(Rules[m].0)
    decreases |Rules| - n
  {
    if n == |Rules| then None
    else if AnyIn(base, Rules[n].1) then Some(Rules[n].0)
    else Classify(base, n + 1)
  }

  /**
   * `normalize_category(title, raw_cat)`: the label of the first keyword list
   * (exhibition, performance, education, festival) with a keyword in the
   * lower-cased raw category and title; the raw category unchanged, possibly
   * None, when there is none.
   */
  function NormalizeCategory(title: string, rawCat: Option<string>): (r: Option<string>)
    ensures forall n :: FirstRule(Base(title, rawCat), n) ==> r == Some(Rules[n].0)
    ensures (forall n :: 0 <= n < |Rules| ==> !AnyIn(Base(title, rawCat), Rules[n].1)) ==> r == rawCat
  {
    match Classify(Base(title, rawCat), 0)
    case Some(name) => Some(name)
    case None => rawCat
  }

  /** A text with an exhibition keyword is an exhibition, whatever else it mentions. */
  lemma ExhibitionFirst(title: string, rawCat: Option<string>)
    requires AnyIn(Base(title, rawCat), ExhibitionKeywords)
    ensures NormalizeCategory(title, rawCat) == Some(Exhibition)
  {
    assert FirstRule(Base(title, rawCat), 0);
  }

  /** The result is one of the four labels, or the raw category passed through. */
  lemma CategoryRange(title: string, rawCat: Option<string>)
    ensures var r := NormalizeCategory(title, rawCat);
            r in {Some(Exhibition), Some(Performance), Some(Education), Some(Festival), rawCat}
  {
    var base := Base(title, rawCat);
    if Classify(base, 0).Some? {
      var n := FirstRuleOf(base);
      assert n == 0 || n == 1 || n == 2 || n == 3;
    }
  }

  /** No keyword holds a space, and no label holds a keyword of a list ranked above its own. */
  lemma KeywordFacts()
    ensures forall n, k :: 0 <= n < |Rules| && k in Rules[n].1 ==> ' ' !in k
    ensures forall n :: 0 <= n < |Rules| ==> Rules[n].0 in Rules[n].1
    ensures forall n, m, k :: 0 <= m < n < |Rules| && k in Rules[m].1 ==> !Contains(Rules[n].0, k)
  {
    forall n, m, k | 0 <= m < n < |Rules| && k in Rules[m].1
      ensures !Contains(Rules[n].0, k)
    {
      if |k| > |Rules[n].0| {
        NotContainsLonger(Rules[n].0, k);
      } else {
        NotContainsOther(Rules[n].0, k);
      }
    }
  }

  lemma NotContainsLonger(t: string, k: string)
    requires |t| < |k|
    ensures !Contains(t, k)
  {
  }

  lemma NotContainsOther(t: string, k: string)
    requires |t| == |k| && t != k
    ensures !Contains(t, k)
  {
  }

  /** With a label as raw category, the searched text starts with that label, which is a keyword of its own rule. */
  lemma LabelOpensBase(title: string, n: nat)
    requires n < |Rules|
    ensures Base(title, Some(Rules[n].0)) == Rules[n].0 + " " + Lower(title)
    ensures AnyIn(Base(title, Some(Rules[n].0)), Rules[n].1)
  {
    var tag := Rules[n].0;
    KeywordFacts();
    LowerNoCapitals(tag);
    LowerNoCapitals(" ");
    assert tag + " " + title == tag + (" " + title);
    LowerAppend(tag, " " + title);
    LowerAppend(" ", title);
    var base := Base(title, Some(tag));
    assert base == tag + " " + Lower(title);
    assert OccursAt(base, tag, 0);
  }

  /** A label, put in front of a title, matches its own rule and no rule ranked above it. */
  lemma LabelBase(title: string, n: nat, raw: string)
    requires n < |Rules|
    requires forall m :: 0 <= m < n ==> !AnyIn(Lower(raw + " " + title), Rules[m].1)
    ensures FirstRule(Base(title, Some(Rules[n].0)), n)
  {
    var tag := Rules[n].0;
    var lt := Lower(title);
    KeywordFacts();
    LabelOpensBase(title, n);
    var base := Base(title, Some(tag));
    LowerAppend(raw, " " + title);
    LowerAppend(" ", title);
    LowerNoCapitals(" ");
    assert raw + " " + title == raw + (" " + title);
    assert Lower(raw + " " + title) == Lower(raw) + " " + lt;
    forall m | 0 <= m < n
      ensures !AnyIn(base, Rules[m].1)
    {
      forall k | k in Rules[m].1
        ensures !Contains(base, k)
      {
        ContainsAcrossSpace(tag, lt, k);
        ContainsInSuffix(Lower(raw) + " ", lt, k);
      }
    }
  }

  /**
   * A label comes out exactly when its rule is the first to match: a raw
   * category that happens to equal a label is never passed through as that
   * label without its rule matching.
   */
  lemma LabelMeansRule(title: string, rawCat: Option<string>, n: nat)
    requires n < |Rules|
    ensures NormalizeCategory(title, rawCat) == Some(Rules[n].0) <==> FirstRule(Base(title, rawCat), n)
  {
    var base := Base(title, rawCat);
    LabelOpensBase(title, n);
    if Classify(base, 0).Some? {
      var f := FirstRuleOf(base);
      assert forall a, b :: 0 <= a < b < |Rules| ==> Rules[a].0 != Rules[b].0;
    }
  }

  /**
   * Classifying again with the result as the raw category changes nothing:
   * a label re-derives itself, and a passed-through category meets the same
   * text again.
   */
  lemma CategoryIdempotent(title: string, rawCat: Option<string>)
    ensures NormalizeCategory(title, NormalizeCategory(title, rawCat)) == NormalizeCategory(title, rawCat)
  {
    var base := Base(title, rawCat);
    var c := Classify(base, 0);
    if c.Some? {
      var n := FirstRuleOf(base);
      LabelBase(title, n, rawCat.GetOr(""));
    }
  }

  /** When some rule matches, the first matching rule exists and decides. */
  lemma FirstRuleOf(base: string) returns (n: nat)
    requires Classify(base, 0).Some?
    ensures FirstRule(base, n) && Classify(base, 0) == Some(Rules[n].0)
  {
    if AnyIn(base, Rules[0].1) { n := 0; }
    else if AnyIn(base, Rules[1].1) { n := 1; }
    else if AnyIn(base, Rules[2].1) { n := 2; }
    else { n := 3; }
  }
}
