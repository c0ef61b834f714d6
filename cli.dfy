/**
 * `main`: crawl each requested source that has an adapter, emit its events,
 * and after each source report the running count of collected events.
 */
module Cli {
  import opened Strings
  import opened Crawler

  /** A usable source name: not empty, no whitespace at either end. */
  predicate IsName(s: string) {
    s != [] && !IsSpace(s[0]) && !IsSpace(s[|s| - 1])
  }

  /** `[s.strip() for s in parts if s.strip()]`. */
  function StrippedNames(parts: seq<string>): (names: seq<string>)
    ensures |names| <= |parts|
    ensures forall i :: 0 <= i < |names| ==> IsName(names[i])
  {
    if parts == [] then []
    else
      var name := Strip(parts[0]);
      var rest := StrippedNames(parts[1..]);
      if name == [] then rest else [name] + rest
  }

  /**
   * `StrippedNames` works part by part, in order: it distributes over
   * concatenation, and one part gives its stripped form unless that is empty.
   */
  lemma {:induction false} StrippedNamesAppend(a: seq<string>, b: seq<string>)
    ensures StrippedNames(a + b) == StrippedNames(a) + StrippedNames(b)
  {
    if a == [] {
      assert a + b == b;
    } else {
      HeadTail(a, b);
      StrippedNamesAppend(a[1..], b);
      StrippedNamesAppendStep(a[0], a[1..], b);
    }
  }

  /** The step of `StrippedNamesAppend`: put one part in front of both sides. */
  lemma StrippedNamesAppendStep(first: string, rest: seq<string>, b: seq<string>)
    requires StrippedNames(rest + b) == StrippedNames(rest) + StrippedNames(b)
    ensures StrippedNames([first] + (rest + b)) == StrippedNames([first] + rest) + StrippedNames(b)
  {
    StrippedNamesCons(first, rest + b);
    StrippedNamesCons(first, rest);
    AppendAssoc(StrippedNames([first]), StrippedNames(rest), StrippedNames(b));
  }

  /** One unfolding of `StrippedNames`: the first part's names, then the rest's. */
  lemma StrippedNamesCons(p: string, rest: seq<string>)
    ensures StrippedNames([p] + rest) == StrippedNames([p]) + StrippedNames(rest)
  {
    var parts := [p] + rest;
    assert parts[0] == p && parts[1..] == rest;
    assert [p][1..] == [];
  }

  lemma StrippedNamesOne(p: string)
    ensures StrippedNames([p]) == if Strip(p) == [] then [] else [Strip(p)]
  {
    assert [p][1..] == [];
  }

  /** Every part that is not blank gives its stripped form as a name. */
  lemma {:induction false} StrippedNamesComplete(parts: seq<string>, k: nat)
    requires k < |parts| && Strip(parts[k]) != []
    ensures Strip(parts[k]) in StrippedNames(parts)
  {
    if k > 0 {
      assert parts[1..][k - 1] == parts[k];
      StrippedNamesComplete(parts[1..], k - 1);
    }
  }

  /** Stripping and dropping keep a comma-free list comma-free. */
  lemma {:induction false} StrippedNamesNoComma(parts: seq<string>)
    ensures (forall k :: 0 <= k < |parts| ==> ',' !in parts[k]) ==>
              forall i :: 0 <= i < |StrippedNames(parts)| ==> ',' !in StrippedNames(parts)[i]
  {
    if parts != [] && forall k :: 0 <= k < |parts| ==> ',' !in parts[k] {
      var rest := parts[1..];
      assert forall k :: 0 <= k < |rest| ==> rest[k] == parts[k + 1];
      StrippedNamesNoComma(rest);
      if ',' in Strip(parts[0]) {
        StripChars(parts[0], ',');
      }
    }
  }

  /** The source names of `--sources`: split at commas, stripped, empties dropped. */
  function RequestedSources(arg: string): (names: seq<string>)
    ensures forall i :: 0 <= i < |names| ==> IsName(names[i]) && ',' !in names[i]
  {
    StrippedNamesNoComma(SplitOn(arg, ','));
    StrippedNames(SplitOn(arg, ','))
  }

  /** Every comma-separated piece of the argument that is not blank is requested, stripped. */
  lemma RequestedSourcesComplete(arg: string, k: nat)
    requires k < |SplitOn(arg, ',')| && Strip(SplitOn(arg, ',')[k]) != []
    ensures Strip(SplitOn(arg, ',')[k]) in RequestedSources(arg)
  {
    StrippedNamesComplete(SplitOn(arg, ','), k);
  }

  /** Names already in the form `RequestedSources` produces are read back unchanged. */
  lemma RequestedSourcesRoundTrip(names: seq<string>)
    requires forall i :: 0 <= i < |names| ==> IsName(names[i]) && ',' !in names[i]
    ensures RequestedSources(JoinWith(names, ',')) == names
  {
    if names == [] {
      var empty: string := [];
      var parts: seq<string> := [empty];
      assert JoinWith(names, ',') == empty;
      assert SplitOn(empty, ',') == parts by { JoinSplit(empty, ','); }
      assert Strip(empty) == empty;
      assert parts[1..] == [];
    } else {
      SplitJoin(names, ',');
      StrippedIdentity(names);
    }
  }

  lemma {:induction false} StrippedIdentity(names: seq<string>)
    requires forall i :: 0 <= i < |names| ==> IsName(names[i])
    ensures StrippedNames(names) == names
  {
    if names != [] {
      assert forall i :: 0 <= i < |names[1..]| ==> names[1..][i] == names[i + 1];
      StrippedIdentity(names[1..]);
      StripStripped(names[0]);
      assert names == [names[0]] + names[1..];
    }
  }

  /** The requested names that have an adapter, in request order. */
  function KnownSources(names: seq<string>, adapters: set<string>): (r: seq<string>)
    ensures |r| <= |names|
    ensures forall i :: 0 <= i < |r| ==> r[i] in adapters
  {
    if names == [] then []
    else
      var init := KnownSources(names[..|names| - 1], adapters);
      if names[|names| - 1] in adapters then init + [names[|names| - 1]] else init
  }

  /** A name is crawled exactly when it is requested and has an adapter. */
  lemma {:induction false} KnownSourcesMembers(names: seq<string>, adapters: set<string>, x: string)
    ensures x in KnownSources(names, adapters) <==> x in names && x in adapters
  {
    if names != [] {
      var init := names[..|names| - 1];
      assert names == init + [names[|names| - 1]];
      KnownSourcesMembers(init, adapters, x);
    }
  }

  /** `KnownSources` is a filter: it distributes over concatenation, keeping order. */
  lemma {:induction false} KnownSourcesAppend(a: seq<string>, b: seq<string>, adapters: set<string>)
    ensures KnownSources(a + b, adapters) == KnownSources(a, adapters) + KnownSources(b, adapters)
  {
    if b == [] {
      assert a + b == a;
    } else {
      var init := b[..|b| - 1];
      assert (a + b)[..|a + b| - 1] == a + init;
      assert (a + b)[|a + b| - 1] == b[|b| - 1];
      KnownSourcesAppend(a, init, adapters);
    }
  }

  /** The events emitted for these sources, source after source. */
  function Emitted(sources: seq<string>, crawl: string -> seq<Event>): seq<Event> {
    if sources == [] then [] else Emitted(sources[..|sources| - 1], crawl) + crawl(sources[|sources| - 1])
  }

  /** How many events each source yields. */
  function Counts(sources: seq<string>, crawl: string -> seq<Event>): (r: seq<nat>)
    ensures |r| == |sources|
  {
    if sources == [] then []
    else Counts(sources[..|sources| - 1], crawl) + [|crawl(sources[|sources| - 1])|]
  }

  /** Entry i of the counts is the number of events of source i. */
  lemma {:induction false} CountsAt(sources: seq<string>, crawl: string -> seq<Event>, i: nat)
    requires i < |sources|
    ensures Counts(sources, crawl)[i] == |crawl(sources[i])|
  {
    var init := sources[..|sources| - 1];
    if i < |init| {
      CountsAt(init, crawl, i);
      assert init[i] == sources[i];
    }
  }

  function Sum(xs: seq<nat>): nat {
    if xs == [] then 0 else Sum(xs[..|xs| - 1]) + xs[|xs| - 1]
  }

  /** The total after each element. */
  function RunningSums(xs: seq<nat>): (r: seq<nat>)
    ensures |r| == |xs|
  {
    if xs == [] then [] else RunningSums(xs[..|xs| - 1]) + [Sum(xs)]
  }

  /** Element `i` of the running sums is the sum of the first `i + 1` elements. */
  lemma {:induction false} RunningSumsAt(xs: seq<nat>, i: nat)
    requires i < |xs|
    ensures RunningSums(xs)[i] == Sum(xs[..i + 1])
  {
    if i < |xs| - 1 {
      var init := xs[..|xs| - 1];
      RunningSumsAt(init, i);
      assert init[..i + 1] == xs[..i + 1];
    } else {
      assert xs[..i + 1] == xs;
    }
  }

  function Squares(xs: seq<nat>): (r: seq<nat>)
    ensures |r| == |xs|
  {
    if xs == [] then [] else Squares(xs[..|xs| - 1]) + [xs[|xs| - 1] * xs[|xs| - 1]]
  }

  lemma {:induction false} SquaresAt(xs: seq<nat>, i: nat)
    requires i < |xs|
    ensures Squares(xs)[i] == xs[i] * xs[i]
  {
    if i < |xs| - 1 {
      SquaresAt(xs[..|xs| - 1], i);
    }
  }

  /** Crawling one more source extends every derived sequence by that source's share. */
  lemma AppendSource(sources: seq<string>, s: string, crawl: string -> seq<Event>)
    ensures Emitted(sources + [s], crawl) == Emitted(sources, crawl) + crawl(s)
    ensures Counts(sources + [s], crawl) == Counts(sources, crawl) + [|crawl(s)|]
    ensures Squares(Counts(sources + [s], crawl)) == Squares(Counts(sources, crawl)) + [|crawl(s)| * |crawl(s)|]
  {
    assert (sources + [s])[..|sources|] == sources;
    var c := Counts(sources + [s], crawl);
    assert c[..|c| - 1] == Counts(sources, crawl);
  }

  /** Appending one more count adds it to the total and the total to the running sums. */
  lemma AppendCount(xs: seq<nat>, x: nat)
    ensures Sum(xs + [x]) == Sum(xs) + x
    ensures RunningSums(xs + [x]) == RunningSums(xs) + [Sum(xs) + x]
  {
    assert (xs + [x])[..|xs|] == xs;
  }

  /** `AppendSource` and `AppendCount` for the squared counts, with the square as repeated addition. */
  lemma SquaredStep(seen: seq<string>, name: string, crawl: string -> seq<Event>)
    ensures Emitted(seen + [name], crawl) == Emitted(seen, crawl) + crawl(name)
    ensures Sum(Squares(Counts(seen + [name], crawl)))
            == Sum(Squares(Counts(seen, crawl))) + Times(|crawl(name)|, |crawl(name)|)
    ensures RunningSums(Squares(Counts(seen + [name], crawl)))
            == RunningSums(Squares(Counts(seen, crawl))) + [Sum(Squares(Counts(seen + [name], crawl)))]
  {
    var size := |crawl(name)|;
    AppendSource(seen, name, crawl);
    AppendCount(Squares(Counts(seen, crawl)), size * size);
    TimesIsProduct(size, size);
  }

  /** Sources known after one more request. */
  lemma AppendRequest(names: seq<string>, n: nat, adapters: set<string>, seen: seq<string>)
    requires n < |names| && seen == KnownSources(names[..n], adapters)
    ensures names[n] in adapters ==> KnownSources(names[..n + 1], adapters) == seen + [names[n]]
    ensures names[n] !in adapters ==> KnownSources(names[..n + 1], adapters) == seen
  {
    assert names[..n + 1][..n] == names[..n];
  }

  /** The total printed after the last source is the number of events emitted. */
  lemma {:induction false} EmittedCount(sources: seq<string>, crawl: string -> seq<Event>)
    ensures |Emitted(sources, crawl)| == Sum(Counts(sources, crawl))
  {
    if sources != [] {
      EmittedCount(sources[..|sources| - 1], crawl);
    }
  }

  /**
   * `main` with the per-event increment corrected to one: the events of every
   * known requested source in order, and after each known source the number
   * of events emitted so far. `crawl` stands for `crawl_source` with the
   * adapter, page count and cutoff of this run.
   */
  method Collect(arg: string, adapters: set<string>, crawl: string -> seq<Event>)
    returns (lines: seq<Event>, reports: seq<nat>)
    ensures lines == Emitted(KnownSources(RequestedSources(arg), adapters), crawl)
    ensures reports == RunningSums(Counts(KnownSources(RequestedSources(arg), adapters), crawl))
    ensures reports != [] ==> reports[|reports| - 1] == |lines|
  {
    lines, reports := CollectNames(RequestedSources(arg), adapters, crawl);
  }

  /** The loop of `main` over the requested names, with one added per event. */
  method CollectNames(names: seq<string>, adapters: set<string>, crawl: string -> seq<Event>)
    returns (lines: seq<Event>, reports: seq<nat>)
    ensures lines == Emitted(KnownSources(names, adapters), crawl)
    ensures reports == RunningSums(Counts(KnownSources(names, adapters), crawl))
    ensures reports != [] ==> reports[|reports| - 1] == |lines|
  {
    lines, reports := [], [];
    var total := 0;
    ghost var seen: seq<string> := [];
    var n := 0;
    while n < |names|
      invariant 0 <= n <= |names|
      invariant seen == KnownSources(names[..n], adapters)
      invariant lines == Emitted(seen, crawl)
      invariant total == Sum(Counts(seen, crawl))
      invariant reports == RunningSums(Counts(seen, crawl))
    {
      var name := names[n];
      AppendRequest(names, n, adapters, seen);
      if name in adapters {
        AppendSource(seen, name, crawl);
        AppendCount(Counts(seen, crawl), |crawl(name)|);
        var items := crawl(name);
        ghost var before := total;
        var j := 0;
        while j < |items|
          invariant 0 <= j <= |items|
          invariant total == before + j
        {
          total := total + 1;
          j := j + 1;
        }
        lines := lines + items;
        reports := reports + [total];
        seen := seen + [name];
      }
      n := n + 1;
    }
    assert names[..|names|] == names;
    EmittedCount(seen, crawl);
    var counts := Counts(seen, crawl);
    if counts != [] {
      RunningSumsAt(counts, |counts| - 1);
      assert counts[..|counts|] == counts;
    }
  }

  /**
   * `main` as written: `total += len(items)` runs once per event instead of
   * once per source, so a source with `n` events adds `n * n` to the total.
   */
  method CollectAsWritten(arg: string, adapters: set<string>, crawl: string -> seq<Event>)
    returns (lines: seq<Event>, reports: seq<nat>)
    ensures lines == Emitted(KnownSources(RequestedSources(arg), adapters), crawl)
    ensures reports == RunningSums(Squares(Counts(KnownSources(RequestedSources(arg), adapters), crawl)))
  {
    lines, reports := CollectNamesAsWritten(RequestedSources(arg), adapters, crawl);
  }

  /** The loop of `main` over the requested names, as written. */
  method CollectNamesAsWritten(names: seq<string>, adapters: set<string>, crawl: string -> seq<Event>)
    returns (lines: seq<Event>, reports: seq<nat>)
    ensures lines == Emitted(KnownSources(names, adapters), crawl)
    ensures reports == RunningSums(Squares(Counts(KnownSources(names, adapters), crawl)))
  {
    lines, reports := [], [];
    var total := 0;
    ghost var seen: seq<string> := [];
    var n := 0;
    while n < |names|
      invariant 0 <= n <= |names|
      invariant seen == KnownSources(names[..n], adapters)
      invariant lines == Emitted(seen, crawl)
      invariant total == Sum(Squares(Counts(seen, crawl)))
      invariant reports == RunningSums(Squares(Counts(seen, crawl)))
    {
      var name := names[n];
      AppendRequest(names, n, adapters, seen);
      if name in adapters {
        SquaredStep(seen, name, crawl);
        var items := crawl(name);
        var size := |items|;
        ghost var before := total;
        var j := 0;
        while j < size
          invariant 0 <= j <= size
          invariant total == before + Times(j, size)
        {
          total := total + size;
          j := j + 1;
        }
        lines := lines + items;
        reports := reports + [total];
        seen := seen + [name];
      }
      n := n + 1;
    }
    assert names[..|names|] == names;
  }

  /** `j` additions of `k`. */
  function Times(j: nat, k: nat): nat {
    if j == 0 then 0 else Times(j - 1, k) + k
  }

  lemma {:induction false} TimesIsProduct(j: nat, k: nat)
    ensures Times(j, k) == j * k
  {
    if j > 0 {
      TimesIsProduct(j - 1, k);
      assert (j - 1) * k + k == j * k;
    }
  }

  /** Running totals determine the sequence they were summed from. */
  lemma {:induction false} RunningSumsInjective(a: seq<nat>, b: seq<nat>)
    ensures RunningSums(a) == RunningSums(b) <==> a == b
  {
    if RunningSums(a) == RunningSums(b) && a != [] {
      var k := |a| - 1;
      assert RunningSums(a[..k]) == RunningSums(a)[..k];
      assert RunningSums(b[..k]) == RunningSums(b)[..k];
      RunningSumsInjective(a[..k], b[..k]);
      assert a[..k + 1] == a && b[..k + 1] == b;
      assert a == a[..k] + [a[k]] && b == b[..k] + [b[k]];
    }
  }

  /**
   * The totals printed as written agree with the event counts exactly when no
   * source yields more than one event.
   */
  lemma SquaredTotalsAgree(counts: seq<nat>)
    ensures RunningSums(Squares(counts)) == RunningSums(counts)
            <==> forall i :: 0 <= i < |counts| ==> counts[i] <= 1
  {
    RunningSumsInjective(Squares(counts), counts);
    if forall i :: 0 <= i < |counts| ==> counts[i] <= 1 {
      forall i | 0 <= i < |counts|
        ensures Squares(counts)[i] == counts[i]
      {
        SquaresAt(counts, i);
        SquareIsSelf(counts[i]);
      }
      assert Squares(counts) == counts;
    } else {
      var i :| 0 <= i < |counts| && counts[i] > 1;
      SquaresAt(counts, i);
      SquareIsSelf(counts[i]);
      assert Squares(counts)[i] != counts[i];
    }
  }

  lemma SquareIsSelf(x: nat)
    ensures x * x == x <==> x <= 1
  {
    if x >= 2 {
      assert x * x >= 2 * x;
    }
  }

  /** One known source with two events: the total printed as written is 4, not 2. */
  lemma SquaredTotalExample(source: string, adapters: set<string>, crawl: string -> seq<Event>)
    requires source in adapters && |crawl(source)| == 2
    ensures RunningSums(Counts(KnownSources([source], adapters), crawl)) == [2]
    ensures RunningSums(Squares(Counts(KnownSources([source], adapters), crawl))) == [4]
  {
    var names := [source];
    assert names[..0] == [];
    assert KnownSources(names, adapters) == names;
    assert Counts(names, crawl) == [2];
    var two: seq<nat> := [2];
    assert two[..0] == [];
    assert Squares(two) == [4];
    var four: seq<nat> := [4];
    assert four[..0] == [];
  }
}
