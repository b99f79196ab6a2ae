/** How the store orders text, and why ordering ISO date strings as text is
    ordering the dates themselves.

    SQLite compares TEXT values with its default BINARY collation: byte by
    byte over their UTF-8 encoding, a proper prefix first. UTF-8 preserves
    the order of code points, so on strings of Unicode scalar values this is
    the lexicographic order `LexLe` below. */
module Order {

  /** `a` sorts at or before `b` under the store's text comparison; a
      string sorts at or before every string it is a prefix of. */
  predicate LexLe(a: string, b: string)
    decreases |a|
  {
    if a == [] then true
    else if b == [] then false
    else if a[0] != b[0] then a[0] < b[0]
    else LexLe(a[1..], b[1..])
  }

  /** Unless `a` is a prefix of `b`, the first position where they differ
      decides: `a` sorts first exactly when its character there is smaller. */
  lemma {:induction false} LexLeFirstDifference(a: string, b: string)
    ensures LexLe(a, b) <==>
      a <= b || exists k :: 0 <= k < |a| && k < |b| && a[..k] == b[..k] && a[k] < b[k]
  {
    if a != [] && b != [] {
      if a[0] != b[0] {
        assert a[..0] == b[..0];
        forall k | 0 < k < |a| && k < |b| ensures a[..k] != b[..k] {
          assert a[..k][0] == a[0] && b[..k][0] == b[0];
        }
      } else {
        LexLeFirstDifference(a[1..], b[1..]);
        assert a <= b <==> a[1..] <= b[1..] by {
          assert a == [a[0]] + a[1..] && b == [b[0]] + b[1..];
        }
        if k :| 0 <= k < |a| - 1 && k < |b| - 1 && a[1..][..k] == b[1..][..k] && a[1..][k] < b[1..][k] {
          assert a[..k + 1] == [a[0]] + a[1..][..k] && b[..k + 1] == [b[0]] + b[1..][..k];
          assert a[k + 1] < b[k + 1];
        }
        if k :| 0 <= k < |a| && k < |b| && a[..k] == b[..k] && a[k] < b[k] {
          assert k != 0;
          assert a[1..][..k - 1] == a[..k][1..] && b[1..][..k - 1] == b[..k][1..];
          assert a[1..][k - 1] < b[1..][k - 1];
        }
      }
    }
  }

  lemma {:induction false} LexLeReflexive(a: string)
    ensures LexLe(a, a)
  {
    if a != [] {
      LexLeReflexive(a[1..]);
    }
  }

  lemma {:induction false} LexLeTotal(a: string, b: string)
    ensures LexLe(a, b) || LexLe(b, a)
  {
    if a != [] && b != [] && a[0] == b[0] {
      LexLeTotal(a[1..], b[1..]);
    }
  }

  lemma {:induction false} LexLeTransitive(a: string, b: string, c: string)
    requires LexLe(a, b) && LexLe(b, c)
    ensures LexLe(a, c)
  {
    if a != [] && b != [] && c != [] && a[0] == b[0] && b[0] == c[0] {
      LexLeTransitive(a[1..], b[1..], c[1..]);
    }
  }

  lemma {:induction false} LexLeAntisymmetric(a: string, b: string)
    requires LexLe(a, b) && LexLe(b, a)
    ensures a == b
  {
    if a != [] && b != [] {
      LexLeAntisymmetric(a[1..], b[1..]);
      assert a == [a[0]] + a[1..] && b == [b[0]] + b[1..];
    }
  }

  /** Comparing two strings that start with pieces of equal length: the
      first pieces decide unless they are equal, then the rest decides. */
  lemma {:induction false} LexLeConcat(a1: string, b1: string, a2: string, b2: string)
    requires |a1| == |a2|
    ensures LexLe(a1 + b1, a2 + b2) <==> if a1 == a2 then LexLe(b1, b2) else LexLe(a1, a2)
  {
    if a1 == [] {
      assert a1 + b1 == b1 && a2 + b2 == b2;
    } else {
      assert (a1 + b1)[0] == a1[0] && (a2 + b2)[0] == a2[0];
      assert (a1 + b1)[1..] == a1[1..] + b1 && (a2 + b2)[1..] == a2[1..] + b2;
      if a1[0] == a2[0] {
        LexLeConcat(a1[1..], b1, a2[1..], b2);
        assert a1 == a2 <==> a1[1..] == a2[1..] by {
          assert a1 == [a1[0]] + a1[1..] && a2 == [a2[0]] + a2[1..];
        }
      }
    }
  }

  function Pow10(n: nat): (p: nat)
    ensures p >= 1
  {
    if n == 0 then 1 else 10 * Pow10(n - 1)
  }

  function Digit(d: nat): (c: char)
    requires d < 10
  {
    ('0' as int + d) as char
  }

  /** `n` written in decimal with exactly `width` digits, zero-padded on the
      left, as the `%0<width>d` conversion writes it when `n` fits. */
  function Pad(n: nat, width: nat): (r: string)
    ensures |r| == width
    ensures forall i :: 0 <= i < width ==> '0' <= r[i] <= '9'
  {
    if width == 0 then [] else Pad(n / 10, width - 1) + [Digit(n % 10)]
  }

  /** Zero-padded decimals of one width compare as text exactly as the
      numbers compare. */
  lemma {:induction false} PadOrder(m: nat, n: nat, width: nat)
    requires m < Pow10(width) && n < Pow10(width)
    ensures LexLe(Pad(m, width), Pad(n, width)) <==> m <= n
    decreases width
  {
    if width == 0 {
      assert m == 0 && n == 0;
    } else {
      var w := width - 1;
      PadOrder(m / 10, n / 10, w);
      PadOrder(n / 10, m / 10, w);
      var dm, dn := [Digit(m % 10)], [Digit(n % 10)];
      LexLeConcat(Pad(m / 10, w), dm, Pad(n / 10, w), dn);
      if Pad(m / 10, w) == Pad(n / 10, w) {
        LexLeReflexive(Pad(m / 10, w));
        assert m / 10 == n / 10;
        assert LexLe(dm, dn) <==> m % 10 <= n % 10 by {
          assert dm[1..] == [] && dn[1..] == [];
        }
      } else {
        assert m / 10 != n / 10;
      }
    }
  }

  lemma PadInjective(m: nat, n: nat, width: nat)
    requires m < Pow10(width) && n < Pow10(width)
    requires Pad(m, width) == Pad(n, width)
    ensures m == n
  {
    LexLeReflexive(Pad(m, width));
    PadOrder(m, n, width);
    PadOrder(n, m, width);
  }

  /** A calendar date as Python's `datetime.date` holds it. */
  datatype CalendarDate = CalendarDate(year: nat, month: nat, day: nat)

  predicate IsLeapYear(y: nat)
  {
    y % 4 == 0 && (y % 100 != 0 || y % 400 == 0)
  }

  function DaysInMonth(y: nat, m: nat): nat
    requires 1 <= m <= 12
  {
    if m == 2 then (if IsLeapYear(y) then 29 else 28)
    else if m == 4 || m == 6 || m == 9 || m == 11 then 30
    else 31
  }

  /** The dates `datetime.date` can represent: years 1 to 9999. */
  predicate ValidDate(d: CalendarDate)
  {
    1 <= d.year <= 9999 && 1 <= d.month <= 12 && 1 <= d.day <= DaysInMonth(d.year, d.month)
  }

  /** Calendar order. */
  predicate DateLe(a: CalendarDate, b: CalendarDate)
  {
    || a.year < b.year
    || (a.year == b.year && a.month < b.month)
    || (a.year == b.year && a.month == b.month && a.day <= b.day)
  }

  /** `date.isoformat()`: `YYYY-MM-DD`. */
  function IsoFormat(d: CalendarDate): (r: string)
    ensures |r| == 10 && r[4] == '-' && r[7] == '-'
  {
    Pad(d.year, 4) + "-" + Pad(d.month, 2) + "-" + Pad(d.day, 2)
  }

  /** The `-MM-DD` tail of two ISO dates orders by month, then by day. */
  lemma MonthDayOrder(m1: nat, d1: nat, m2: nat, d2: nat)
    requires m1 < 100 && d1 < 100 && m2 < 100 && d2 < 100
    ensures LexLe("-" + Pad(m1, 2) + "-" + Pad(d1, 2), "-" + Pad(m2, 2) + "-" + Pad(d2, 2))
        <==> m1 < m2 || (m1 == m2 && d1 <= d2)
  {
    var ma, mb := Pad(m1, 2), Pad(m2, 2);
    var da, db := Pad(d1, 2), Pad(d2, 2);
    assert Pow10(2) == 100;
    assert "-" + ma + "-" + da == "-" + (ma + ("-" + da));
    assert "-" + mb + "-" + db == "-" + (mb + ("-" + db));
    LexLeConcat("-", ma + ("-" + da), "-", mb + ("-" + db));
    LexLeConcat(ma, "-" + da, mb, "-" + db);
    PadOrder(m1, m2, 2);
    if ma == mb {
      PadInjective(m1, m2, 2);
      LexLeConcat("-", da, "-", db);
      PadOrder(d1, d2, 2);
    }
  }

  /** Ordering the stored ISO date strings as text orders the dates by the
      calendar, so `ORDER BY date DESC` lists the latest day first. */
  lemma IsoOrderIsCalendarOrder(a: CalendarDate, b: CalendarDate)
    requires ValidDate(a) && ValidDate(b)
    ensures LexLe(IsoFormat(a), IsoFormat(b)) <==> DateLe(a, b)
  {
    var ya, yb := Pad(a.year, 4), Pad(b.year, 4);
    var ta := "-" + Pad(a.month, 2) + "-" + Pad(a.day, 2);
    var tb := "-" + Pad(b.month, 2) + "-" + Pad(b.day, 2);
    assert Pow10(4) == 10000;
    assert IsoFormat(a) == ya + ta;
    assert IsoFormat(b) == yb + tb;
    LexLeConcat(ya, ta, yb, tb);
    PadOrder(a.year, b.year, 4);
    if ya == yb {
      PadInjective(a.year, b.year, 4);
      MonthDayOrder(a.month, a.day, b.month, b.day);
    }
  }
}
