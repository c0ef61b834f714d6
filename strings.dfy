/**
 * The pieces of Python's `str` that the crawler relies on: the whitespace
 * class, `split()`, `" ".join(...)`, `strip()`, `in`, `lower()`, `<`,
 * `split(sep)` and `sep.join(...)`.
 */
module Strings {

  /**
   * Python's whitespace class: the characters for which `str.isspace()` holds,
   * which is also what `\s` matches in a `str` pattern and what `split()` and
   * `strip()` remove.
   */
  predicate IsSpace(c: char) {
    c == ' ' || ('\t' <= c <= '\r') || ('\U{1C}' <= c <= '\U{1F}')
    || c == '\U{85}' || c == '\U{A0}' || c == '\U{1680}'
    || ('\U{2000}' <= c <= '\U{200A}') || c == '\U{2028}' || c == '\U{2029}'
    || c == '\U{202F}' || c == '\U{205F}' || c == '\U{3000}'
  }

  predicate NoSpace(s: string) {
    forall i :: 0 <= i < |s| ==> !IsSpace(s[i])
  }

  /** A word of `split()`: non-empty and free of whitespace. */
  predicate IsWord(w: string) {
    w != [] && NoSpace(w)
  }

  /** Number of leading characters of `s` that are not whitespace. */
  function WordLength(s: string): (n: nat)
    ensures n <= |s| && forall i :: 0 <= i < n ==> !IsSpace(s[i])
    ensures n < |s| ==> IsSpace(s[n])
  {
    if s == [] || IsSpace(s[0]) then 0 else 1 + WordLength(s[1..])
  }

  /** `s.split()`: the maximal whitespace-free runs of `s`, in order. */
  function Words(s: string): (ws: seq<string>)
    ensures forall k :: 0 <= k < |ws| ==> IsWord(ws[k])
    decreases |s|
  {
    if s == [] then []
    else if IsSpace(s[0]) then Words(s[1..])
    else
      var n := WordLength(s);
      [s[..n]] + Words(s[n..])
  }

  /** `" ".join(ws)`. */
  function JoinWords(ws: seq<string>): string {
    if ws == [] then ""
    else if |ws| == 1 then ws[0]
    else ws[0] + " " + JoinWords(ws[1..])
  }

  /**
   * The shape of a collapsed text: no whitespace at either end, and every
   * whitespace character inside is a plain space between two non-space
   * characters.
   */
  predicate Collapsed(s: string) {
    (s == [] || (!IsSpace(s[0]) && !IsSpace(s[|s| - 1])))
    && (forall i :: 0 <= i < |s| && IsSpace(s[i]) ==> s[i] == ' ')
    && (forall i :: 0 < i < |s| && IsSpace(s[i]) ==> !IsSpace(s[i - 1]))
  }

  /** `" ".join(s.split())`. */
  function Collapse(s: string): (r: string)
    ensures Collapsed(r)
    ensures Words(r) == Words(s)
  {
    JoinWordsCollapsed(Words(s));
    WordsOfJoin(Words(s));
    JoinWords(Words(s))
  }

  lemma {:induction false} JoinWordsEnds(ws: seq<string>)
    requires ws != [] && forall k :: 0 <= k < |ws| ==> IsWord(ws[k])
    ensures JoinWords(ws) != []
    ensures !IsSpace(JoinWords(ws)[0]) && !IsSpace(JoinWords(ws)[|JoinWords(ws)| - 1])
  {
    if |ws| > 1 {
      JoinWordsEnds(ws[1..]);
      var r := JoinWords(ws[1..]);
      assert JoinWords(ws) == ws[0] + " " + r;
    }
  }

  /** Joining words with single spaces gives a collapsed text. */
  lemma {:induction false} JoinWordsCollapsed(ws: seq<string>)
    requires forall k :: 0 <= k < |ws| ==> IsWord(ws[k])
    ensures Collapsed(JoinWords(ws))
  {
    if |ws| > 1 {
      var w, r := ws[0], JoinWords(ws[1..]);
      JoinWordsCollapsed(ws[1..]);
      JoinWordsEnds(ws[1..]);
      var j := w + " " + r;
      assert JoinWords(ws) == j;
      assert IsWord(w);
      forall i | 0 <= i < |j| && IsSpace(j[i])
        ensures j[i] == ' '
      {
        if i > |w| {
          assert j[i] == r[i - |w| - 1];
        }
      }
      forall i | 0 < i < |j| && IsSpace(j[i])
        ensures !IsSpace(j[i - 1])
      {
        if i > |w| + 1 {
          assert j[i] == r[i - |w| - 1] && j[i - 1] == r[i - |w| - 2];
        }
      }
    }
  }

  lemma WordsOfWord(w: string)
    requires IsWord(w)
    ensures Words(w) == [w]
  {
    WordLengthOfWord(w);
    assert w[..|w|] == w && w[|w|..] == [];
  }

  /** Word splitting undoes single-space joining: `" ".join(ws).split() == ws`. */
  lemma {:induction false} WordsOfJoin(ws: seq<string>)
    requires forall k :: 0 <= k < |ws| ==> IsWord(ws[k])
    ensures Words(JoinWords(ws)) == ws
  {
    if |ws| == 1 {
      WordsOfWord(ws[0]);
    } else if |ws| > 1 {
      var w, r := ws[0], JoinWords(ws[1..]);
      var j := w + " " + r;
      assert JoinWords(ws) == j;
      assert IsWord(w);
      assert j[..|w|] == w && j[|w|] == ' ';
      WordLengthAtSpace(j, |w|);
      assert j[|w|..][1..] == r;
      WordsOfJoin(ws[1..]);
    }
  }

  lemma WordLengthAtSpace(s: string, n: nat)
    requires n < |s| && NoSpace(s[..n]) && IsSpace(s[n])
    ensures WordLength(s) == n
  {
    assert forall i :: 0 <= i < n ==> !IsSpace(s[i]) by {
      forall i | 0 <= i < n
        ensures !IsSpace(s[i])
      {
        assert s[..n][i] == s[i];
      }
    }
  }

  lemma WordLengthOfWord(w: string)
    requires NoSpace(w)
    ensures WordLength(w) == |w|
  {
  }

  /** A text is left unchanged by collapsing exactly when it is already collapsed. */
  lemma {:induction false} CollapseFixedPoints(s: string)
    ensures Collapse(s) == s <==> Collapsed(s)
  {
    if Collapsed(s) {
      CollapsedJoinsItsWords(s);
    }
  }

  lemma {:induction false} CollapsedJoinsItsWords(s: string)
    requires Collapsed(s)
    ensures JoinWords(Words(s)) == s
    decreases |s|
  {
    if s != [] {
      var n := WordLength(s);
      if n == |s| {
        WordsOfWord(s);
      } else {
        var rest := s[n + 1..];
        assert IsSpace(s[n]) && s[n] == ' ';
        assert n > 0;
        assert n != |s| - 1 by { assert !IsSpace(s[|s| - 1]); }
        assert n + 1 < |s|;
        assert !IsSpace(s[n + 1]);
        assert rest != [] && rest[0] == s[n + 1] && !IsSpace(rest[0]);
        assert Collapsed(rest) by {
          forall i | 0 < i < |rest| && IsSpace(rest[i])
            ensures !IsSpace(rest[i - 1])
          {
            assert rest[i] == s[n + 1 + i] && rest[i - 1] == s[n + i];
          }
        }
        CollapsedJoinsItsWords(rest);
        assert s[n..][1..] == rest;
        assert Words(s) == [s[..n]] + Words(rest);
        var ws := Words(rest);
        assert ws != [] by {
          var m := WordLength(rest);
          assert ws == [rest[..m]] + Words(rest[m..]);
        }
        assert JoinWords(Words(s)) == s[..n] + " " + JoinWords(ws);
        assert s == s[..n] + " " + rest;
      }
    }
  }

  /** Collapsing twice is collapsing once. */
  lemma CollapseIdempotent(s: string)
    ensures Collapse(Collapse(s)) == Collapse(s)
  {
    CollapseFixedPoints(Collapse(s));
  }

  /** `s.lstrip()`. */
  function StripLeft(s: string): (r: string)
    ensures |r| <= |s|
    ensures forall i :: 0 <= i < |s| - |r| ==> IsSpace(s[i])
    ensures r == [] || !IsSpace(r[0])
  {
    if s != [] && IsSpace(s[0]) then StripLeft(s[1..]) else s
  }

  /** `s.rstrip()`. */
  function StripRight(s: string): (r: string)
    ensures |r| <= |s|
    ensures forall i :: |r| <= i < |s| ==> IsSpace(s[i])
    ensures r == [] || !IsSpace(r[|r| - 1])
  {
    if s != [] && IsSpace(s[|s| - 1]) then StripRight(s[..|s| - 1]) else s
  }

  /** What `lstrip` leaves is a suffix of the text. */
  lemma {:induction false} StripLeftIsSuffix(s: string)
    ensures StripLeft(s) == s[|s| - |StripLeft(s)|..]
  {
    if s != [] && IsSpace(s[0]) {
      StripLeftIsSuffix(s[1..]);
      var r := StripLeft(s[1..]);
      assert s[1..][|s| - 1 - |r|..] == s[|s| - |r|..];
    }
  }

  /** What `rstrip` leaves is a prefix of the text. */
  lemma {:induction false} StripRightIsPrefix(s: string)
    ensures StripRight(s) == s[..|StripRight(s)|]
  {
    if s != [] && IsSpace(s[|s| - 1]) {
      StripRightIsPrefix(s[..|s| - 1]);
      var r := StripRight(s[..|s| - 1]);
      assert s[..|s| - 1][..|r|] == s[..|r|];
    }
  }

  /**
   * `r` is what is left of `s` after dropping `k` leading and some trailing
   * characters, all of them whitespace.
   */
  predicate TrimmedAt(s: string, r: string, k: int) {
    OccursAt(s, r, k)
    && (forall i :: 0 <= i < k ==> IsSpace(s[i]))
    && (forall i :: k + |r| <= i < |s| ==> IsSpace(s[i]))
  }

  /** `s.strip()`: `s` without the whitespace at either end. */
  function Strip(s: string): (r: string)
    ensures r == [] || (!IsSpace(r[0]) && !IsSpace(r[|r| - 1]))
    ensures exists k :: TrimmedAt(s, r, k)
  {
    StripEnds(s);
    StripTrims(s);
    StripRight(StripLeft(s))
  }

  lemma StripEnds(s: string)
    ensures var r := StripRight(StripLeft(s));
            r == [] || (!IsSpace(r[0]) && !IsSpace(r[|r| - 1]))
  {
    var l := StripLeft(s);
    var r := StripRight(l);
    StripRightIsPrefix(l);
    assert r != [] ==> r[0] == l[0];
  }

  lemma StripTrims(s: string)
    ensures TrimmedAt(s, StripRight(StripLeft(s)), |s| - |StripLeft(s)|)
  {
    var l := StripLeft(s);
    var r := StripRight(l);
    var k := |s| - |l|;
    StripLeftIsSuffix(s);
    StripRightIsPrefix(l);
    assert OccursAt(s, r, k);
    forall i | k + |r| <= i < |s|
      ensures IsSpace(s[i])
    {
      assert s[i] == l[i - k];
    }
  }

  /** Text with no whitespace at either end is its own strip, so stripping is idempotent. */
  lemma StripStripped(s: string)
    ensures (s == [] || (!IsSpace(s[0]) && !IsSpace(s[|s| - 1]))) ==> Strip(s) == s
    ensures Strip(Strip(s)) == Strip(s)
  {
    var r := Strip(s);
    assert StripLeft(r) == r;
    assert StripRight(r) == r;
    if s == [] || (!IsSpace(s[0]) && !IsSpace(s[|s| - 1])) {
      assert StripLeft(s) == s;
      assert StripRight(s) == s;
    }
  }

  /** Stripping keeps only characters of the original text. */
  lemma StripChars(s: string, c: char)
    requires c in Strip(s)
    ensures c in s
  {
    var r := Strip(s);
    var k :| TrimmedAt(s, r, k);
    var j :| 0 <= j < |r| && r[j] == c;
    assert s[k..k + |r|][j] == s[k + j];
  }

  /** `re.sub(r"\s+", "", s)`: every whitespace character removed. */
  function RemoveWhitespace(s: string): (r: string)
    ensures NoSpace(r)
    ensures forall c :: c in r <==> c in s && !IsSpace(c)
    ensures |r| <= |s|
    ensures NoSpace(s) ==> r == s
  {
    if s == [] then []
    else (if IsSpace(s[0]) then [] else [s[0]]) + RemoveWhitespace(s[1..])
  }

  /**
   * `RemoveWhitespace` works character by character: it distributes over
   * concatenation, and a single character is kept exactly when it is not
   * whitespace; so order and repetitions are kept.
   */
  lemma {:induction false} RemoveWhitespaceAppend(a: string, b: string)
    ensures RemoveWhitespace(a + b) == RemoveWhitespace(a) + RemoveWhitespace(b)
  {
    if a == [] {
      assert a + b == b;
    } else {
      var head: string := if IsSpace(a[0]) then [] else [a[0]];
      assert (a + b)[0] == a[0] && (a + b)[1..] == a[1..] + b;
      RemoveWhitespaceAppend(a[1..], b);
      calc {
        RemoveWhitespace(a + b);
        head + RemoveWhitespace(a[1..] + b);
        head + (RemoveWhitespace(a[1..]) + RemoveWhitespace(b));
        (head + RemoveWhitespace(a[1..])) + RemoveWhitespace(b);
      }
    }
  }

  lemma RemoveWhitespaceChar(c: char)
    ensures RemoveWhitespace([c]) == if IsSpace(c) then [] else [c]
  {
    assert [c][1..] == [];
  }

  /** `k` occurs in `t` starting at index `i`. */
  predicate OccursAt(t: string, k: string, i: int) {
    0 <= i <= |t| - |k| && t[i..i + |k|] == k
  }

  /** Python's substring test `k in t`. */
  predicate Contains(t: string, k: string) {
    exists i | 0 <= i <= |t| - |k| :: OccursAt(t, k, i)
  }

  /** An occurrence that does not cover the separating space lies on one side of it. */
  lemma ContainsAcrossSpace(x: string, y: string, k: string)
    ensures ' ' !in k && Contains(x + " " + y, k) ==> Contains(x, k) || Contains(y, k)
  {
    if ' ' !in k && Contains(x + " " + y, k) {
      AcrossSpace(x, y, k);
    }
  }

  lemma AcrossSpace(x: string, y: string, k: string)
    requires ' ' !in k && Contains(x + " " + y, k)
    ensures Contains(x, k) || Contains(y, k)
  {
    var t := x + " " + y;
    var i :| 0 <= i <= |t| - |k| && OccursAt(t, k, i);
    assert t[|x|] == ' ';
    assert forall j :: i <= j < i + |k| ==> t[j] == t[i..i + |k|][j - i] == k[j - i] != ' ';
    assert !(i <= |x| < i + |k|);
    if i + |k| <= |x| {
      assert t[i..i + |k|] == x[i..i + |k|];
      assert OccursAt(x, k, i);
    } else {
      assert i > |x|;
      assert t[i..i + |k|] == y[i - |x| - 1..i - |x| - 1 + |k|];
      assert OccursAt(y, k, i - |x| - 1);
    }
  }

  /** An occurrence in `y` is an occurrence in any text that ends with `y`. */
  lemma ContainsInSuffix(x: string, y: string, k: string)
    ensures Contains(y, k) ==> Contains(x + y, k)
  {
    if Contains(y, k) {
      InSuffix(x, y, k);
    }
  }

  lemma InSuffix(x: string, y: string, k: string)
    requires Contains(y, k)
    ensures Contains(x + y, k)
  {
    var i :| 0 <= i <= |y| - |k| && OccursAt(y, k, i);
    assert (x + y)[|x| + i..|x| + i + |k|] == y[i..i + |k|];
    assert OccursAt(x + y, k, |x| + i);
  }

  /** `c.lower()` on one character; only ASCII letters change. */
  function LowerChar(c: char): char {
    if 'A' <= c <= 'Z' then (c as int + 32) as char else c
  }

  /** `s.lower()`, character by character. */
  function Lower(s: string): (r: string)
    ensures |r| == |s|
    ensures forall i :: 0 <= i < |s| ==> r[i] == LowerChar(s[i])
  {
    if s == [] then [] else [LowerChar(s[0])] + Lower(s[1..])
  }

  /** Lowering a concatenation lowers each part. */
  lemma {:induction false} LowerAppend(a: string, b: string)
    ensures Lower(a + b) == Lower(a) + Lower(b)
  {
    if a != [] {
      assert (a + b)[0] == a[0] && (a + b)[1..] == a[1..] + b;
      LowerAppend(a[1..], b);
    } else {
      assert a + b == b;
    }
  }

  /** Text without ASCII capitals is its own lower-case form. */
  lemma {:induction false} LowerNoCapitals(s: string)
    requires forall i :: 0 <= i < |s| ==> !('A' <= s[i] <= 'Z')
    ensures Lower(s) == s
  {
    if s != [] {
      LowerNoCapitals(s[1..]);
    }
  }

  /** Python's `a < b` on `str`: lexicographic order of code points. */
  predicate LexLess(a: string, b: string)
    ensures LexLess(a, b) ==> a != b
  {
    if a == [] then b != []
    else b != [] && (a[0] < b[0] || (a[0] == b[0] && LexLess(a[1..], b[1..])))
  }

  /** Comparing two texts whose first parts have equal length compares those first parts, then the rest. */
  lemma {:induction false} LexLessAppend(a1: string, a2: string, b1: string, b2: string)
    requires |a1| == |b1|
    ensures LexLess(a1 + a2, b1 + b2) <==> LexLess(a1, b1) || (a1 == b1 && LexLess(a2, b2))
  {
    if a1 != [] {
      assert (a1 + a2)[1..] == a1[1..] + a2;
      assert (b1 + b2)[1..] == b1[1..] + b2;
      assert (a1 + a2)[0] == a1[0] && (b1 + b2)[0] == b1[0];
      LexLessAppend(a1[1..], a2, b1[1..], b2);
      assert a1 == [a1[0]] + a1[1..] && b1 == [b1[0]] + b1[1..];
      assert a1 == b1 <==> a1[0] == b1[0] && a1[1..] == b1[1..];
    } else {
      assert a1 + a2 == a2 && b1 + b2 == b2;
    }
  }

  /** `s.split(sep)`: the pieces between occurrences of `sep`, always at least one. */
  function SplitOn(s: string, sep: char): (parts: seq<string>)
    ensures |parts| >= 1
    ensures forall k :: 0 <= k < |parts| ==> sep !in parts[k]
  {
    if s == [] then [""]
    else if s[0] == sep then [""] + SplitOn(s[1..], sep)
    else
      var rest := SplitOn(s[1..], sep);
      [[s[0]] + rest[0]] + rest[1..]
  }

  /** `sep.join(parts)`. */
  function JoinWith(parts: seq<string>, sep: char): string {
    if parts == [] then ""
    else if |parts| == 1 then parts[0]
    else parts[0] + [sep] + JoinWith(parts[1..], sep)
  }

  /** Joining the pieces of a split gives back the text: `sep.join(s.split(sep)) == s`. */
  lemma {:induction false} JoinSplit(s: string, sep: char)
    ensures JoinWith(SplitOn(s, sep), sep) == s
  {
    if s != [] {
      JoinSplit(s[1..], sep);
      var rest := SplitOn(s[1..], sep);
      if s[0] == sep {
        assert SplitOn(s, sep) == [""] + rest;
        assert s == [sep] + s[1..];
      } else {
        var parts := SplitOn(s, sep);
        assert parts == [[s[0]] + rest[0]] + rest[1..];
        if |rest| == 1 {
          assert s == [s[0]] + rest[0];
        } else {
          assert parts[1..] == rest[1..];
          assert JoinWith(rest, sep) == rest[0] + [sep] + JoinWith(rest[1..], sep);
          assert s == [s[0]] + s[1..];
        }
      }
    }
  }

  /** Splitting a join gives back the pieces when no piece holds the separator. */
  lemma {:induction false} SplitJoin(parts: seq<string>, sep: char)
    requires |parts| >= 1
    requires forall k :: 0 <= k < |parts| ==> sep !in parts[k]
    ensures SplitOn(JoinWith(parts, sep), sep) == parts
  {
    if |parts| == 1 {
      SplitPiece(parts[0], [], sep);
      assert parts[0] + [] == parts[0];
    } else {
      SplitJoin(parts[1..], sep);
      var tail := [sep] + JoinWith(parts[1..], sep);
      SplitPiece(parts[0], tail, sep);
      assert JoinWith(parts, sep) == parts[0] + tail;
      assert tail[1..] == JoinWith(parts[1..], sep);
    }
  }

  /** A separator-free prefix glues onto the first piece of whatever follows it. */
  lemma {:induction false} SplitPiece(a: string, b: string, sep: char)
    requires sep !in a
    ensures SplitOn(a + b, sep) == (if b != [] && b[0] == sep then [a] + SplitOn(b[1..], sep)
                                   else [a + SplitOn(b, sep)[0]] + SplitOn(b, sep)[1..])
  {
    if a == [] {
      assert a + b == b;
      var sb := SplitOn(b, sep);
      if b != [] && b[0] == sep {
        assert sb == [""] + SplitOn(b[1..], sep);
      } else {
        assert a + sb[0] == sb[0];
        assert [sb[0]] + sb[1..] == sb;
      }
    } else {
      SplitPiece(a[1..], b, sep);
      assert (a + b)[1..] == a[1..] + b;
      assert (a + b)[0] == a[0] && a[0] != sep;
      var rest := SplitOn(a[1..] + b, sep);
      assert SplitOn(a + b, sep) == [[a[0]] + rest[0]] + rest[1..];
      assert a == [a[0]] + a[1..];
      if b != [] && b[0] == sep {
        assert rest == [a[1..]] + SplitOn(b[1..], sep);
      } else {
        var sb := SplitOn(b, sep);
        assert rest == [a[1..] + sb[0]] + sb[1..];
        assert [a[0]] + rest[0] == a + sb[0];
      }
    }
  }

  /** Concatenation is associative. */
  lemma AppendAssoc<T>(x: seq<T>, y: seq<T>, z: seq<T>)
    ensures x + (y + z) == (x + y) + z
  {
  }

  /** A non-empty sequence, and its concatenation with another, split into head and tail. */
  lemma HeadTail<T>(a: seq<T>, b: seq<T>)
    requires a != []
    ensures a == [a[0]] + a[1..]
    ensures a + b == [a[0]] + (a[1..] + b)
  {
  }
}
