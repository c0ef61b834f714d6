/**
 * The event identifier (`make_id`): the SHA-1 digest of the key
 * `title|start|place|source`, with an absent start date or place written as
 * the empty string.
 */
module Identity {
  import opened Wrappers
  import opened Strings

  /** `hashlib.sha1(key.encode("utf-8")).hexdigest()`, taken as a given function of the key. */
  type Digest = string -> string

  const Delimiter: char := '|'

  /** `x or ''` for an optional string. */
  function OrEmpty(x: Option<string>): string {
    x.GetOr("")
  }

  /**
   * The key that is hashed, `f"{title}|{start or ''}|{place or ''}|{source}"`:
   * the four fields joined with the delimiter, an absent start or place
   * contributing the empty string.
   */
  function Key(title: string, start: Option<string>, place: Option<string>, source: string): (r: string)
    ensures r == JoinWith([title, OrEmpty(start), OrEmpty(place), source], Delimiter)
  {
    JoinFour(title, OrEmpty(start), OrEmpty(place), source);
    title + [Delimiter] + OrEmpty(start) + [Delimiter] + OrEmpty(place) + [Delimiter] + source
  }

  /** The identifier: the digest of the four fields joined with the delimiter. */
  function MakeId(sha1: Digest, title: string, start: Option<string>, place: Option<string>, source: string): (r: string)
    ensures r == sha1(JoinWith([title, OrEmpty(start), OrEmpty(place), source], Delimiter))
  {
    sha1(Key(title, start, place, source))
  }

  /** Joining four pieces puts the delimiter between each neighbouring pair. */
  lemma JoinFour(a: string, b: string, c: string, d: string)
    ensures JoinWith([a, b, c, d], Delimiter) == a + [Delimiter] + b + [Delimiter] + c + [Delimiter] + d
  {
    var parts := [a, b, c, d];
    assert parts[1..] == [b, c, d];
    assert [b, c, d][1..] == [c, d];
    assert [c, d][1..] == [d];
    assert JoinWith([c, d], Delimiter) == c + [Delimiter] + d;
    assert JoinWith([b, c, d], Delimiter) == b + [Delimiter] + (c + [Delimiter] + d);
    assert JoinWith(parts, Delimiter) == a + [Delimiter] + (b + [Delimiter] + (c + [Delimiter] + d));
  }

  /** An absent start date or place and an empty one give the same identifier. */
  lemma AbsentIsEmpty(sha1: Digest, title: string, start: Option<string>, place: Option<string>, source: string)
    ensures MakeId(sha1, title, None, place, source) == MakeId(sha1, title, Some(""), place, source)
    ensures MakeId(sha1, title, start, None, source) == MakeId(sha1, title, start, Some(""), source)
  {
  }

  /**
   * When no field holds the delimiter, the key splits back into the four
   * fields it was built from.
   */
  lemma KeyRoundTrip(title: string, start: Option<string>, place: Option<string>, source: string)
    requires Delimiter !in title && Delimiter !in OrEmpty(start)
    requires Delimiter !in OrEmpty(place) && Delimiter !in source
    ensures SplitOn(Key(title, start, place, source), Delimiter)
            == [title, OrEmpty(start), OrEmpty(place), source]
  {
    SplitJoin([title, OrEmpty(start), OrEmpty(place), source], Delimiter);
  }

  /**
   * Two field tuples without the delimiter share a key only when they agree
   * on every field (absent and empty counted alike), so the identifier then
   * depends on exactly these four fields.
   */
  lemma KeyInjective(t1: string, s1: Option<string>, p1: Option<string>, src1: string,
                     t2: string, s2: Option<string>, p2: Option<string>, src2: string)
    requires Delimiter !in t1 && Delimiter !in OrEmpty(s1) && Delimiter !in OrEmpty(p1) && Delimiter !in src1
    requires Delimiter !in t2 && Delimiter !in OrEmpty(s2) && Delimiter !in OrEmpty(p2) && Delimiter !in src2
    requires Key(t1, s1, p1, src1) == Key(t2, s2, p2, src2)
    ensures t1 == t2 && OrEmpty(s1) == OrEmpty(s2) && OrEmpty(p1) == OrEmpty(p2) && src1 == src2
  {
    KeyRoundTrip(t1, s1, p1, src1);
    KeyRoundTrip(t2, s2, p2, src2);
  }

  /**
   * A delimiter inside a field makes different events share a key: the title
   * "a|" with place "b" and the title "a" with place "|b".
   */
  lemma DelimiterInFieldCollides(sha1: Digest, source: string)
    ensures Key("a|", None, Some("b"), source) == Key("a", None, Some("|b"), source)
    ensures MakeId(sha1, "a|", None, Some("b"), source) == MakeId(sha1, "a", None, Some("|b"), source)
  {
    assert Key("a|", None, Some("b"), source) == "a|||b|" + source;
    assert Key("a", None, Some("|b"), source) == "a|||b|" + source;
  }
}
