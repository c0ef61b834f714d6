/**
 * `parse_price`: reduce the price text of a listing to the free marker
 * "무료", an amount "<digits>원", or the trimmed text itself.
 */
module Price {
  import opened Wrappers
  import opened Strings

  /** The free-admission marker, also the canonical free price. */
  const Free: string := "무료"

  /** The currency unit that ends an amount. */
  const Won: char := '원'

  /** `\d`, restricted to the ASCII digits. */
  predicate IsDigit(c: char) {
    '0' <= c <= '9'
  }

  /** The class `[\d, ]` on text from which every space has been removed. */
  predicate InAmount(c: char) {
    IsDigit(c) || c == ','
  }

  /**
   * `(\d[\d, ]*)\s*원` matches text without whitespace at `i`, its group
   * being `t[i..j]` and the unit sitting at `j`.
   */
  predicate AmountAt(t: string, i: int, j: int) {
    0 <= i < j < |t| && IsDigit(t[i]) && t[j] == Won
    && forall m :: i < m < j ==> InAmount(t[m])
  }

  /** The match `re.search` reports: the one starting leftmost. */
  ghost predicate LeftmostAmount(t: string, i: int, j: int) {
    AmountAt(t, i, j) && forall i', j' :: 0 <= i' < i ==> !AmountAt(t, i', j')
  }

  /** The end of the run of amount characters starting at `j`. */
  function RunEnd(t: string, j: nat): (e: nat)
    requires j <= |t|
    ensures j <= e <= |t|
    ensures forall m :: j <= m < e ==> InAmount(t[m])
    ensures e < |t| ==> !InAmount(t[e])
    decreases |t| - j
  {
    if j < |t| && InAmount(t[j]) then RunEnd(t, j + 1) else j
  }

  /** A match at `i` can only end where the run after `t[i]` ends. */
  lemma AmountEndsAtRunEnd(t: string, i: nat, j: int)
    requires i < |t| && AmountAt(t, i, j)
    ensures j == RunEnd(t, i + 1)
  {
    var e := RunEnd(t, i + 1);
    assert !InAmount(t[j]);
    assert e <= j;
    assert e >= j;
  }

  /** The scanner behind `re.search`: try each start position from `i` on. */
  function FindAmount(t: string, i: nat): (r: Option<(nat, nat)>)
    requires i <= |t|
    ensures r.Some? ==> i <= r.value.0 && AmountAt(t, r.value.0, r.value.1)
    ensures r.Some? ==> forall i', j' :: i <= i' < r.value.0 ==> !AmountAt(t, i', j')
    ensures r.None? ==> forall i', j' :: i <= i' ==> !AmountAt(t, i', j')
    decreases |t| - i
  {
    if i == |t| then None
    else
      var e := RunEnd(t, i + 1);
      if IsDigit(t[i]) && e < |t| && t[e] == Won then Some((i, e))
      else
        assert forall j' :: !AmountAt(t, i, j') by {
          forall j' | AmountAt(t, i, j') ensures false {
            AmountEndsAtRunEnd(t, i, j');
          }
        }
        FindAmount(t, i + 1)
  }

  /** `s.replace(",", "")`. */
  function DropCommas(s: string): (r: string)
    ensures ',' !in r
    ensures forall c :: c in r <==> c in s && c != ','
    ensures |r| <= |s|
    ensures ',' !in s ==> r == s
  {
    if s == [] then []
    else (if s[0] == ',' then [] else [s[0]]) + DropCommas(s[1..])
  }

  /**
   * `DropCommas` works character by character: it distributes over
   * concatenation, and a single character is kept exactly when it is not a
   * comma; so order and repetitions are kept.
   */
  lemma {:induction false} DropCommasAppend(a: string, b: string)
    ensures DropCommas(a + b) == DropCommas(a) + DropCommas(b)
  {
    if a == [] {
      assert a + b == b;
    } else {
      var head: string := if a[0] == ',' then [] else [a[0]];
      assert (a + b)[0] == a[0] && (a + b)[1..] == a[1..] + b;
      DropCommasAppend(a[1..], b);
      calc {
        DropCommas(a + b);
        head + DropCommas(a[1..] + b);
        head + (DropCommas(a[1..]) + DropCommas(b));
        (head + DropCommas(a[1..])) + DropCommas(b);
      }
    }
  }

  lemma DropCommasChar(c: char)
    ensures DropCommas([c]) == if c == ',' then [] else [c]
  {
    assert [c][1..] == [];
  }

  /** An amount in canonical form: one or more digits, then the unit. */
  ghost predicate IsAmountText(s: string) {
    |s| >= 2 && s[|s| - 1] == Won && forall k :: 0 <= k < |s| - 1 ==> IsDigit(s[k])
  }

  /** A matched group without its commas is a non-empty run of digits. */
  lemma AmountDigits(t: string, i: int, j: int)
    requires AmountAt(t, i, j)
    ensures IsAmountText(DropCommas(t[i..j]) + [Won])
  {
    var g := t[i..j];
    var d := DropCommas(g);
    assert g[0] == t[i] && IsDigit(g[0]);
    assert d == [g[0]] + DropCommas(g[1..]);
    forall c | c in d ensures IsDigit(c) {
      assert c in g && c != ',';
      var m :| 0 <= m < |g| && g[m] == c;
      assert m == 0 || InAmount(t[i + m]);
    }
    var s := d + [Won];
    forall k | 0 <= k < |s| - 1 ensures IsDigit(s[k]) {
      assert s[k] == d[k] && d[k] in d;
    }
  }

  /**
   * `parse_price(raw)`. No text gives no price. After removing all
   * whitespace: the free marker anywhere wins, even beside an amount; else the
   * leftmost amount, its commas dropped; else the original text, trimmed.
   */
  function ParsePrice(raw: Option<string>): (r: Option<string>)
    ensures raw.None? || raw.value == "" ==> r.None?
    ensures raw.Some? && raw.value != "" && Contains(RemoveWhitespace(raw.value), Free) ==>
              r == Some(Free)
    ensures raw.Some? && raw.value != "" && !Contains(RemoveWhitespace(raw.value), Free) ==>
              var t := RemoveWhitespace(raw.value);
              forall i, j :: LeftmostAmount(t, i, j) ==> r == Some(DropCommas(t[i..j]) + [Won])
    ensures raw.Some? && raw.value != "" && !Contains(RemoveWhitespace(raw.value), Free) ==>
              var t := RemoveWhitespace(raw.value);
              (forall i, j :: !AmountAt(t, i, j)) ==> r == Some(Strip(raw.value))
  {
    if raw.None? || raw.value == "" then None
    else
      var t := RemoveWhitespace(raw.value);
      if Contains(t, Free) then Some(Free)
      else match FindAmount(t, 0)
        case Some((i, j)) =>
          assert forall i', j' :: LeftmostAmount(t, i', j') ==> i' == i && j' == j by {
            forall i', j' | LeftmostAmount(t, i', j') ensures i' == i && j' == j {
              AmountEndsAtRunEnd(t, i, j);
              AmountEndsAtRunEnd(t, i', j');
            }
          }
          Some(DropCommas(t[i..j]) + [Won])
        case None => Some(Strip(raw.value))
  }

  /** When the text holds an amount, a leftmost one exists. */
  lemma LeftmostAmountExists(t: string, i: int, j: int)
    requires AmountAt(t, i, j)
    ensures exists i', j' :: LeftmostAmount(t, i', j')
  {
    var r := FindAmount(t, 0);
    assert r.Some?;
    assert LeftmostAmount(t, r.value.0, r.value.1);
  }

  /**
   * Every price is one of the canonical forms: the free marker, an amount in
   * digits and the unit, or the trimmed original text.
   */
  lemma PriceForms(raw: Option<string>)
    ensures var r := ParsePrice(raw);
            r.None? || r == Some(Free) || IsAmountText(r.value) || r == Some(Strip(raw.value))
  {
    if raw.Some? && raw.value != "" {
      var t := RemoveWhitespace(raw.value);
      if !Contains(t, Free) && exists i, j :: AmountAt(t, i, j) {
        var i, j :| AmountAt(t, i, j);
        LeftmostAmountExists(t, i, j);
        var i', j' :| LeftmostAmount(t, i', j');
        AmountDigits(t, i', j');
      }
    }
  }
}
