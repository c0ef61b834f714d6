/**
 * Calendar dates as the crawler produces them: `date.isoformat()` of what the
 * date parser returns, compared afterwards as strings.
 */
module Dates {
  import opened Strings

  datatype CalendarDate = CalendarDate(year: int, month: int, day: int)

  /** A `datetime.date`: year 1..9999 (MINYEAR..MAXYEAR), month 1..12, day 1..31. */
  type Date = d: CalendarDate | 1 <= d.year <= 9999 && 1 <= d.month <= 12 && 1 <= d.day <= 31
    witness CalendarDate(1, 1, 1)

  /** Chronological order of dates. */
  predicate Before(a: Date, b: Date) {
    a.year < b.year
    || (a.year == b.year && (a.month < b.month || (a.month == b.month && a.day < b.day)))
  }

  function Pow10(w: nat): (p: nat)
    ensures p >= 1
  {
    if w == 0 then 1 else 10 * Pow10(w - 1)
  }

  function DigitChar(d: nat): char
    requires d < 10
  {
    ('0' as int + d) as char
  }

  /** `"%0*d" % (w, n)`: the last `w` decimal digits of `n`, zero-padded. */
  function Digits(n: nat, w: nat): (s: string)
    ensures |s| == w
  {
    if w == 0 then [] else Digits(n / 10, w - 1) + [DigitChar(n % 10)]
  }

  /** `d.isoformat()`: `YYYY-MM-DD`. */
  function Iso(d: Date): string {
    Digits(d.year, 4) + "-" + Digits(d.month, 2) + "-" + Digits(d.day, 2)
  }

  /**
   * Zero-padded numbers of the same width compare as strings the way they
   * compare as numbers, and are equal only when the numbers are.
   */
  lemma {:induction false} DigitsOrder(n: nat, m: nat, w: nat)
    requires n < Pow10(w) && m < Pow10(w)
    ensures LexLess(Digits(n, w), Digits(m, w)) <==> n < m
    ensures Digits(n, w) == Digits(m, w) <==> n == m
  {
    if w > 0 {
      var n1, m1 := n / 10, m / 10;
      var dn, dm := n % 10, m % 10;
      assert n == 10 * n1 + dn && m == 10 * m1 + dm;
      assert n1 < Pow10(w - 1) && m1 < Pow10(w - 1);
      DigitsOrder(n1, m1, w - 1);
      var cn, cm := [DigitChar(dn)], [DigitChar(dm)];
      LexLessAppend(Digits(n1, w - 1), cn, Digits(m1, w - 1), cm);
      assert LexLess(cn, cm) <==> dn < dm;
      assert Digits(n, w) == Digits(m, w) <==> Digits(n1, w - 1) == Digits(m1, w - 1) && dn == dm by {
        if Digits(n, w) == Digits(m, w) {
          assert Digits(n, w)[..w - 1] == Digits(n1, w - 1);
          assert Digits(m, w)[..w - 1] == Digits(m1, w - 1);
          assert Digits(n, w)[w - 1] == DigitChar(dn);
        }
      }
      assert n < m <==> n1 < m1 || (n1 == m1 && dn < dm);
    }
  }

  /**
   * Comparing ISO strings with Python's `<` is comparing the dates:
   * the string order and the calendar order agree.
   */
  lemma IsoOrder(a: Date, b: Date)
    ensures LexLess(Iso(a), Iso(b)) <==> Before(a, b)
    ensures Iso(a) == Iso(b) <==> a == b
  {
    var ya, ma, da := Digits(a.year, 4), Digits(a.month, 2), Digits(a.day, 2);
    var yb, mb, db := Digits(b.year, 4), Digits(b.month, 2), Digits(b.day, 2);
    assert Pow10(4) == 10000 && Pow10(2) == 100;
    DigitsOrder(a.year, b.year, 4);
    DigitsOrder(a.month, b.month, 2);
    DigitsOrder(a.day, b.day, 2);
    var dash := "-";
    assert !LexLess(dash, dash);
    // the day part
    LexLessAppend(dash, da, dash, db);
    // the month part and what follows it
    var ra, rb := dash + da, dash + db;
    LexLessAppend(ma, ra, mb, rb);
    var sa, sb := dash + (ma + ra), dash + (mb + rb);
    LexLessAppend(dash, ma + ra, dash, mb + rb);
    // the year and what follows it
    LexLessAppend(ya, sa, yb, sb);
    assert Iso(a) == ya + sa && Iso(b) == yb + sb;
    assert ya + sa == yb + sb <==> ya == yb && sa == sb by {
      if ya + sa == yb + sb {
        assert (ya + sa)[..4] == ya && (yb + sb)[..4] == yb;
        assert (ya + sa)[4..] == sa && (yb + sb)[4..] == sb;
      }
    }
    assert sa == sb <==> ma == mb && da == db by {
      if sa == sb {
        assert sa[1..3] == ma && sb[1..3] == mb;
        assert sa[4..] == da && sb[4..] == db;
      }
    }
  }

  /** An ISO date string has ten characters, so it is never empty and truthy in Python. */
  lemma IsoLength(d: Date)
    ensures |Iso(d)| == 10
  {
  }
}
