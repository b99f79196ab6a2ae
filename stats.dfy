/** The statistics `dashboard` computes from the attendance table for the
    current day: today's records, every record latest day first, the number
    of distinct names among the stored records, and the present and absent counts. */
module Stats {
  import Order
  import opened Store

  /** `SELECT name, time FROM attendance WHERE date=?`, in stored order. */
  function TodayRecords(rs: seq<Record>, today: string): (r: seq<(string, string)>)
    ensures |r| <= |rs|
    ensures |r| == CountOn(rs, today)
  {
    if rs == [] then []
    else if rs[0].date == today then [(rs[0].name, rs[0].time)] + TodayRecords(rs[1..], today)
    else TodayRecords(rs[1..], today)
  }

  /** The number of records dated `d`. */
  function CountOn(rs: seq<Record>, d: string): nat
  {
    if rs == [] then 0 else (if rs[0].date == d then 1 else 0) + CountOn(rs[1..], d)
  }

  /** Every name that occurs in the table: `COUNT(DISTINCT name)` is its
      size, which never exceeds the number of records. */
  function Names(rs: seq<Record>): (r: set<string>)
    ensures |r| <= |rs|
  {
    if rs == [] then {} else {rs[0].name} + Names(rs[1..])
  }

  /** The names recorded on day `d`. */
  function NamesOn(rs: seq<Record>, d: string): set<string>
  {
    if rs == [] then {}
    else if rs[0].date == d then {rs[0].name} + NamesOn(rs[1..], d)
    else NamesOn(rs[1..], d)
  }

  /** `absent_today`: the total less the present when the total is positive,
      and 0 otherwise. */
  function Absent(total: nat, present: nat): (r: int)
    ensures total == 0 ==> r == 0
    ensures total > 0 ==> present + r == total
    ensures present <= total ==> r >= 0
    ensures present > total > 0 ==> r < 0
  {
    if total > 0 then total - present else 0
  }

  datatype DashboardView = DashboardView(
    today: string,
    todayRecords: seq<(string, string)>,
    allRecords: seq<(string, string, string)>,
    totalStudents: nat,
    presentToday: nat,
    absentToday: int)

  /** The values `dashboard` hands to its template. */
  function Dashboard(rs: seq<Record>, today: string): (v: DashboardView)
    ensures v.today == today
    ensures v.todayRecords == TodayRecords(rs, today)
    ensures v.presentToday == |v.todayRecords| == CountOn(rs, today)
    ensures |v.allRecords| == |rs|
    ensures v.totalStudents == |Names(rs)| <= |rs|
    ensures v.absentToday == Absent(v.totalStudents, v.presentToday)
    ensures v.allRecords == Triples(SortByDateDesc(rs))
    ensures forall i, j :: 0 <= i < j < |v.allRecords| ==> Order.LexLe(v.allRecords[j].1, v.allRecords[i].1)
    ensures rs == [] ==> v.totalStudents == 0 && v.presentToday == 0 && v.absentToday == 0
  {
    var todays := TodayRecords(rs, today);
    var total := |Names(rs)|;
    var sorted := SortByDateDesc(rs);
    assert |sorted| == |multiset(sorted)| == |multiset(rs)| == |rs|;
    DashboardView(today, todays, Triples(sorted), total, |todays|, Absent(total, |todays|))
  }

  /** The `(name, date, time)` columns of each record. */
  function Triples(rs: seq<Record>): seq<(string, string, string)>
  {
    seq(|rs|, i requires 0 <= i < |rs| => (rs[i].name, rs[i].date, rs[i].time))
  }

  // ---------------------------------------------------------------------
  // ORDER BY date DESC

  predicate SortedByDateDesc(rs: seq<Record>)
  {
    forall i, j :: 0 <= i < j < |rs| ==> Order.LexLe(rs[j].date, rs[i].date)
  }

  /** Places `x` before the first record whose date is not later than its own. */
  function InsertByDateDesc(x: Record, rs: seq<Record>): (r: seq<Record>)
  {
    if rs == [] || Order.LexLe(rs[0].date, x.date) then [x] + rs
    else [rs[0]] + InsertByDateDesc(x, rs[1..])
  }

  /** `ORDER BY date DESC`: every stored record, each as often as stored,
      latest date first; records of the same day stay in stored order. */
  function SortByDateDesc(rs: seq<Record>): (r: seq<Record>)
    ensures multiset(r) == multiset(rs)
    ensures SortedByDateDesc(r)
  {
    if rs == [] then []
    else
      var tail := SortByDateDesc(rs[1..]);
      InsertPermutes(rs[0], tail);
      InsertSorted(rs[0], tail);
      assert rs == [rs[0]] + rs[1..];
      InsertByDateDesc(rs[0], tail)
  }

  lemma {:induction false} InsertPermutes(x: Record, rs: seq<Record>)
    ensures multiset(InsertByDateDesc(x, rs)) == multiset(rs) + multiset{x}
  {
    if rs != [] && !Order.LexLe(rs[0].date, x.date) {
      InsertPermutes(x, rs[1..]);
      assert rs == [rs[0]] + rs[1..];
    }
  }

  lemma {:induction false} InsertSorted(x: Record, rs: seq<Record>)
    requires SortedByDateDesc(rs)
    ensures SortedByDateDesc(InsertByDateDesc(x, rs))
  {
    var r := InsertByDateDesc(x, rs);
    if rs == [] || Order.LexLe(rs[0].date, x.date) {
      forall i, j | 0 <= i < j < |r| ensures Order.LexLe(r[j].date, r[i].date) {
        if i == 0 && j > 1 {
          Order.LexLeTransitive(r[j].date, rs[0].date, x.date);
        }
      }
    } else {
      var rest := InsertByDateDesc(x, rs[1..]);
      InsertSorted(x, rs[1..]);
      InsertPermutes(x, rs[1..]);
      Order.LexLeTotal(rs[0].date, x.date);
      forall k | 0 <= k < |rest| ensures Order.LexLe(rest[k].date, rs[0].date) {
        assert rest[k] in multiset(rest);
        if rest[k] != x {
          assert rest[k] in multiset(rs[1..]);
          var m :| 0 <= m < |rs[1..]| && rs[1..][m] == rest[k];
          assert rs[m + 1] == rest[k];
        }
      }
      forall i, j | 0 <= i < j < |r| ensures Order.LexLe(r[j].date, r[i].date) {
        if i == 0 {
          assert r[j] == rest[j - 1];
        } else {
          assert r[i] == rest[i - 1] && r[j] == rest[j - 1];
        }
      }
    }
  }

  // ---------------------------------------------------------------------
  // Counting

  lemma {:induction false} TodayRecordsMembers(rs: seq<Record>, today: string, p: (string, string))
    ensures p in TodayRecords(rs, today) <==>
      exists i :: 0 <= i < |rs| && rs[i].date == today && rs[i].name == p.0 && rs[i].time == p.1
  {
    if rs != [] {
      TodayRecordsMembers(rs[1..], today, p);
      if exists i :: 0 <= i < |rs| && rs[i].date == today && rs[i].name == p.0 && rs[i].time == p.1 {
        var i :| 0 <= i < |rs| && rs[i].date == today && rs[i].name == p.0 && rs[i].time == p.1;
        if i > 0 {
          assert rs[1..][i - 1] == rs[i];
        }
      }
      if exists i :: 0 <= i < |rs| - 1 && rs[1..][i].date == today && rs[1..][i].name == p.0 && rs[1..][i].time == p.1 {
        var i :| 0 <= i < |rs| - 1 && rs[1..][i].date == today && rs[1..][i].name == p.0 && rs[1..][i].time == p.1;
        assert rs[i + 1] == rs[1..][i];
      }
    }
  }

  lemma {:induction false} NamesMembers(rs: seq<Record>, x: string)
    ensures x in Names(rs) <==> exists i :: 0 <= i < |rs| && rs[i].name == x
  {
    if rs != [] {
      NamesMembers(rs[1..], x);
      if exists i :: 0 <= i < |rs| && rs[i].name == x {
        var i :| 0 <= i < |rs| && rs[i].name == x;
        if i > 0 {
          assert rs[1..][i - 1] == rs[i];
        }
      }
      if exists i :: 0 <= i < |rs| - 1 && rs[1..][i].name == x {
        var i :| 0 <= i < |rs| - 1 && rs[1..][i].name == x;
        assert rs[i + 1] == rs[1..][i];
      }
    }
  }

  lemma {:induction false} NamesOnMembers(rs: seq<Record>, d: string, x: string)
    ensures x in NamesOn(rs, d) <==> HasKey(rs, x, d)
  {
    if rs != [] {
      NamesOnMembers(rs[1..], d, x);
      if HasKey(rs, x, d) {
        var i :| 0 <= i < |rs| && rs[i].name == x && rs[i].date == d;
        if i > 0 {
          assert rs[1..][i - 1] == rs[i];
        }
      }
      if HasKey(rs[1..], x, d) {
        var i :| 0 <= i < |rs| - 1 && rs[1..][i].name == x && rs[1..][i].date == d;
        assert rs[i + 1] == rs[1..][i];
      }
    }
  }

  lemma {:induction false} NamesOnWithinNames(rs: seq<Record>, d: string)
    ensures NamesOn(rs, d) <= Names(rs)
  {
    if rs != [] {
      NamesOnWithinNames(rs[1..], d);
    }
  }

  /** With unique keys, each of today's records carries a different name. */
  lemma {:induction false} TodayCountIsTodayNames(rs: seq<Record>, today: string)
    requires KeysUnique(rs)
    ensures |TodayRecords(rs, today)| == |NamesOn(rs, today)|
  {
    if rs != [] {
      assert KeysUnique(rs[1..]) by {
        forall i, j | 0 <= i < j < |rs| - 1
          ensures rs[1..][i].name != rs[1..][j].name || rs[1..][i].date != rs[1..][j].date
        {
          assert rs[1..][i] == rs[i + 1] && rs[1..][j] == rs[j + 1];
        }
      }
      TodayCountIsTodayNames(rs[1..], today);
      if rs[0].date == today {
        NamesOnMembers(rs[1..], today, rs[0].name);
        forall i | 0 <= i < |rs| - 1
          ensures rs[1..][i].name != rs[0].name || rs[1..][i].date != today
        {
          assert rs[1..][i] == rs[i + 1];
        }
      }
    }
  }

  /** A table holding one record dated today shows one present. */
  lemma OneRecordPresent(x: Record, today: string)
    requires x.date == today
    ensures Dashboard([x], today).presentToday == 1
  {
    assert CountOn([x], today) == 1 + CountOn([], today);
  }

  /** `total_students` counts the names stored now: a name whose only
      record was on the cleared day drops out of the total. */
  lemma ClearDayCanLowerTotal()
    ensures var t := Table([Record(1, "Bo", "2024-05-01", "08:00:00")], 2);
      && Dashboard(t.records, "2024-05-01").totalStudents == 1
      && Dashboard(ClearDay(t, "2024-05-01").records, "2024-05-01").totalStudents == 0
  {
    var t := Table([Record(1, "Bo", "2024-05-01", "08:00:00")], 2);
    assert Names(t.records) == {"Bo"};
    assert ClearDay(t, "2024-05-01").records == [];
  }

  /** Under the uniqueness invariant no more names are present today than
      the table holds distinct names. */
  lemma PresentAtMostTotal(rs: seq<Record>, today: string)
    requires KeysUnique(rs)
    ensures |TodayRecords(rs, today)| <= |Names(rs)|
  {
    TodayCountIsTodayNames(rs, today);
    NamesOnWithinNames(rs, today);
    SubsetCardinality(NamesOn(rs, today), Names(rs));
  }

  lemma SubsetCardinality(a: set<string>, b: set<string>)
    requires a <= b
    ensures |a| <= |b|
  {
    assert b == a + (b - a);
  }

  /** The dashboard's counts under the uniqueness invariant: nobody is
      counted absent a negative number of times, and present plus absent is
      the number of distinct names. */
  lemma DashboardCountsAgree(rs: seq<Record>, today: string)
    requires KeysUnique(rs)
    ensures var v := Dashboard(rs, today);
      && v.presentToday == |TodayRecords(rs, today)|
      && v.totalStudents == |Names(rs)|
      && v.absentToday >= 0
      && v.presentToday + v.absentToday == v.totalStudents
  {
    PresentAtMostTotal(rs, today);
    if rs != [] {
      assert rs[0].name in Names(rs);
    }
  }

  /** Without the invariant the arithmetic breaks: two records of one name
      on one day, as two racing submissions can leave behind, make the
      absent count negative. */
  lemma DuplicateKeyMakesAbsentNegative()
    ensures var rs := [Record(1, "Asha", "2024-05-01", "08:00:00"), Record(2, "Asha", "2024-05-01", "08:00:01")];
      Dashboard(rs, "2024-05-01").absentToday == -1
  {
    var rs := [Record(1, "Asha", "2024-05-01", "08:00:00"), Record(2, "Asha", "2024-05-01", "08:00:01")];
    assert Names(rs) == {"Asha"};
  }

  /** After `clear_today` nobody is present today, and exactly today's
      records are gone. */
  lemma {:induction false} ClearDayEmptiesToday(rs: seq<Record>, today: string)
    ensures TodayRecords(RemoveDate(rs, today), today) == []
    ensures |RemoveDate(rs, today)| + |TodayRecords(rs, today)| == |rs|
  {
    if rs != [] {
      ClearDayEmptiesToday(rs[1..], today);
    }
  }

  lemma {:induction false} TodayRecordsAppend(rs: seq<Record>, x: Record, today: string)
    ensures TodayRecords(rs + [x], today)
      == TodayRecords(rs, today) + (if x.date == today then [(x.name, x.time)] else [])
  {
    if rs == [] {
      assert rs + [x] == [x];
    } else {
      assert (rs + [x])[1..] == rs[1..] + [x];
      TodayRecordsAppend(rs[1..], x, today);
    }
  }

  /** A successful mark adds one to today's present count; a rejected one
      leaves it as it was. */
  lemma MarkCountsOnce(t: Table, submitted: string, today: string, timeNow: string)
    ensures var (t', outcome) := MarkAttendance(t, submitted, today, timeNow);
      |TodayRecords(t'.records, today)| == |TodayRecords(t.records, today)| + (if outcome.Marked? then 1 else 0)
  {
    var (t', outcome) := MarkAttendance(t, submitted, today, timeNow);
    if outcome.Marked? {
      TodayRecordsAppend(t.records, Record(t.nextId, Text.Strip(submitted), today, timeNow), today);
    }
  }
}
