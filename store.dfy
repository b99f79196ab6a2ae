/** The `attendance` table and the two handlers that change it: marking
    attendance (an INSERT guarded by a lookup on `(name, date)`) and clearing
    the current day (a DELETE by date). The table is a sequence of records in
    stored order; `id` is SQLite's AUTOINCREMENT key, so the next id only
    grows and deleted ids are never handed out again. */
module Store {
  import opened Wrappers
  import Text

  datatype Record = Record(id: nat, name: string, date: string, time: string)

  /** The table's rows in stored order, and the id the next insert receives. */
  datatype Table = Table(records: seq<Record>, nextId: nat)

  /** The table as `CREATE TABLE IF NOT EXISTS` leaves it on a fresh store. */
  const EmptyTable := Table([], 1)

  predicate IdsIncreasing(rs: seq<Record>)
  {
    forall i, j :: 0 <= i < j < |rs| ==> rs[i].id < rs[j].id
  }

  /** The business rule: no two records share a `(name, date)` key. */
  predicate KeysUnique(rs: seq<Record>)
  {
    forall i, j :: 0 <= i < j < |rs| ==> rs[i].name != rs[j].name || rs[i].date != rs[j].date
  }

  /** The table invariant: ids are positive, increase in stored order and lie
      below the next id; keys are unique. */
  predicate Consistent(t: Table)
  {
    && 1 <= t.nextId
    && (forall i :: 0 <= i < |t.records| ==> 1 <= t.records[i].id < t.nextId)
    && IdsIncreasing(t.records)
    && KeysUnique(t.records)
  }

  predicate HasKey(rs: seq<Record>, name: string, date: string)
  {
    exists i :: 0 <= i < |rs| && rs[i].name == name && rs[i].date == date
  }

  /** `SELECT id FROM attendance WHERE name=? AND date=?` followed by
      `fetchone()`: the position of the first matching record, if any. */
  function FindFirst(rs: seq<Record>, name: string, date: string): (r: Option<nat>)
    ensures r.Some? <==> HasKey(rs, name, date)
    ensures r.Some? ==> r.value < |rs| && rs[r.value].name == name && rs[r.value].date == date
    ensures r.Some? ==> forall j :: 0 <= j < r.value ==> rs[j].name != name || rs[j].date != date
  {
    if rs == [] then None
    else if rs[0].name == name && rs[0].date == date then Some(0)
    else
      var rest := FindFirst(rs[1..], name, date);
      assert HasKey(rs, name, date) ==> HasKey(rs[1..], name, date) by {
        if HasKey(rs, name, date) {
          var i :| 0 <= i < |rs| && rs[i].name == name && rs[i].date == date;
          assert rs[1..][i - 1] == rs[i];
        }
      }
      if rest.Some? then Some(rest.value + 1) else None
  }

  datatype MarkOutcome =
    | Marked(id: nat)     // the record was inserted under this id
    | AlreadyMarked       // "You have already marked attendance today."

  /** The POST branch of `mark_attendance`: strip the submitted name, reject
      when a record for `(name, today)` exists, otherwise append one record
      stamped with `today` and `timeNow` under a fresh id. */
  function MarkAttendance(t: Table, submitted: string, today: string, timeNow: string): (r: (Table, MarkOutcome))
    ensures r.1 == AlreadyMarked <==> HasKey(t.records, Text.Strip(submitted), today)
    ensures r.1 == AlreadyMarked ==> r.0 == t
  {
    var name := Text.Strip(submitted);
    if FindFirst(t.records, name, today).Some? then (t, AlreadyMarked)
    else (Table(t.records + [Record(t.nextId, name, today, timeNow)], t.nextId + 1), Marked(t.nextId))
  }

  /** A successful mark appends exactly one record, the stripped name with
      today's date and the given time under the old next id, and leaves every
      existing record where it was. */
  lemma MarkAppendsOne(t: Table, submitted: string, today: string, timeNow: string)
    requires !HasKey(t.records, Text.Strip(submitted), today)
    ensures var (t', outcome) := MarkAttendance(t, submitted, today, timeNow);
      && outcome == Marked(t.nextId)
      && |t'.records| == |t.records| + 1
      && t'.records[..|t.records|] == t.records
      && t'.records[|t.records|] == Record(t.nextId, Text.Strip(submitted), today, timeNow)
      && t'.nextId == t.nextId + 1
  {
  }

  /** The accepted case of `MarkAttendance` as one equation: the same fact
      as `MarkAppendsOne`, in the form the proofs below rewrite with. */
  lemma MarkAccepted(t: Table, submitted: string, today: string, timeNow: string)
    requires !HasKey(t.records, Text.Strip(submitted), today)
    ensures MarkAttendance(t, submitted, today, timeNow) ==
      (Table(t.records + [Record(t.nextId, Text.Strip(submitted), today, timeNow)], t.nextId + 1), Marked(t.nextId))
  {
  }

  /** The first mark on an empty table is accepted under id 1. */
  lemma FirstMarkOnEmptyTable(submitted: string, today: string, timeNow: string)
    ensures MarkAttendance(EmptyTable, submitted, today, timeNow) ==
      (Table([Record(1, Text.Strip(submitted), today, timeNow)], 2), Marked(1))
  {
    var name := Text.Strip(submitted);
    assert FindFirst([], name, today) == None;
    assert [] + [Record(1, name, today, timeNow)] == [Record(1, name, today, timeNow)];
  }

  /** The lookup's two answers, as the class below branches on them. */
  lemma MarkRejected(t: Table, submitted: string, today: string, timeNow: string)
    requires FindFirst(t.records, Text.Strip(submitted), today).Some?
    ensures MarkAttendance(t, submitted, today, timeNow) == (t, AlreadyMarked)
  {
  }

  lemma MarkAcceptedConsistent(t: Table, submitted: string, today: string, timeNow: string)
    requires Consistent(t)
    requires FindFirst(t.records, Text.Strip(submitted), today).None?
    ensures var t' := Table(t.records + [Record(t.nextId, Text.Strip(submitted), today, timeNow)], t.nextId + 1);
      MarkAttendance(t, submitted, today, timeNow) == (t', Marked(t.nextId)) && Consistent(t')
  {
    MarkAccepted(t, submitted, today, timeNow);
    AppendPreservesConsistent(t, Record(t.nextId, Text.Strip(submitted), today, timeNow));
  }

  lemma AppendPreservesConsistent(t: Table, x: Record)
    requires Consistent(t)
    requires x.id == t.nextId
    requires !HasKey(t.records, x.name, x.date)
    ensures Consistent(Table(t.records + [x], t.nextId + 1))
  {
    var rs, n := t.records + [x], |t.records|;
    assert forall i :: 0 <= i < n ==> rs[i] == t.records[i];
    assert rs[n] == x;
  }

  lemma MarkPreservesConsistent(t: Table, submitted: string, today: string, timeNow: string)
    requires Consistent(t)
    ensures Consistent(MarkAttendance(t, submitted, today, timeNow).0)
  {
    var name := Text.Strip(submitted);
    if !HasKey(t.records, name, today) {
      var x := Record(t.nextId, name, today, timeNow);
      AppendPreservesConsistent(t, x);
      MarkAccepted(t, submitted, today, timeNow);
    }
  }

  /** Once a name is marked for a day, marking it again that day, with the
      same name in any surrounding whitespace, is rejected and changes
      nothing. */
  lemma MarkTwiceRejected(t: Table, submitted: string, resubmitted: string, today: string, time1: string, time2: string)
    requires Text.Strip(resubmitted) == Text.Strip(submitted)
    ensures var t1 := MarkAttendance(t, submitted, today, time1).0;
      MarkAttendance(t1, resubmitted, today, time2) == (t1, AlreadyMarked)
  {
    var t1 := MarkAttendance(t, submitted, today, time1).0;
    var name := Text.Strip(submitted);
    if !HasKey(t.records, name, today) {
      assert t1.records[|t.records|].name == name && t1.records[|t.records|].date == today;
    }
    assert HasKey(t1.records, name, today);
  }

  /** Under the invariant a `(name, date)` key is held by at most one record. */
  lemma KeyHeldOnce(t: Table, i: nat, j: nat)
    requires Consistent(t)
    requires i < |t.records| && j < |t.records|
    requires t.records[i].name == t.records[j].name && t.records[i].date == t.records[j].date
    ensures i == j
  {
  }

  /** `DELETE FROM attendance WHERE date=?`: the records of other days, in
      their stored order. */
  function RemoveDate(rs: seq<Record>, date: string): (r: seq<Record>)
    ensures |r| <= |rs|
    ensures forall x :: x in r <==> x in rs && x.date != date
  {
    if rs == [] then []
    else if rs[0].date == date then RemoveDate(rs[1..], date)
    else [rs[0]] + RemoveDate(rs[1..], date)
  }

  /** `clear_today` on the table: the next id is kept, as AUTOINCREMENT
      keeps its counter when rows are deleted. */
  function ClearDay(t: Table, today: string): (r: Table)
    ensures forall x :: x in r.records <==> x in t.records && x.date != today
    ensures r.nextId == t.nextId
  {
    Table(RemoveDate(t.records, today), t.nextId)
  }

  /** Ids are never reused: a record marked after a day was cleared gets an
      id above every id the table held before, deleted ones included. */
  lemma IdsNeverReused(t: Table, today: string, submitted: string, date: string, timeNow: string)
    requires Consistent(t)
    ensures var outcome := MarkAttendance(ClearDay(t, today), submitted, date, timeNow).1;
      outcome.Marked? ==> forall i :: 0 <= i < |t.records| ==> t.records[i].id < outcome.id
  {
  }

  lemma {:induction false} RemoveDateKeepsOrder(rs: seq<Record>, date: string)
    requires IdsIncreasing(rs)
    ensures IdsIncreasing(RemoveDate(rs, date))
  {
    if rs != [] {
      RemoveDateKeepsOrder(rs[1..], date);
      var rest := RemoveDate(rs[1..], date);
      if rs[0].date != date {
        forall j | 0 <= j < |rest| ensures rs[0].id < rest[j].id {
          assert rest[j] in rs[1..];
        }
      }
    }
  }

  lemma {:induction false} RemoveDateKeepsKeysUnique(rs: seq<Record>, date: string)
    requires KeysUnique(rs)
    ensures KeysUnique(RemoveDate(rs, date))
  {
    if rs != [] {
      RemoveDateKeepsKeysUnique(rs[1..], date);
      var rest := RemoveDate(rs[1..], date);
      if rs[0].date != date {
        forall j | 0 <= j < |rest| ensures rs[0].name != rest[j].name || rs[0].date != rest[j].date {
          assert rest[j] in rs[1..];
        }
      }
    }
  }

  lemma ClearDayPreservesConsistent(t: Table, today: string)
    requires Consistent(t)
    ensures Consistent(ClearDay(t, today))
  {
    RemoveDateKeepsOrder(t.records, today);
    RemoveDateKeepsKeysUnique(t.records, today);
    var rs := ClearDay(t, today).records;
    forall i | 0 <= i < |rs| ensures 1 <= rs[i].id < t.nextId {
      assert rs[i] in t.records;
    }
  }

  /** Two non-empty id-ordered tables holding the same records start with
      the same record, and their tails hold the same records. */
  lemma SameMembersSameHead(a: seq<Record>, b: seq<Record>)
    requires IdsIncreasing(a) && IdsIncreasing(b)
    requires forall x :: x in a <==> x in b
    requires a != [] && b != []
    ensures a[0] == b[0]
    ensures forall x :: x in a[1..] <==> x in b[1..]
  {
    assert b[0] in a && a[0] in b;
    assert a[0] == b[0];
    forall x ensures x in a[1..] <==> x in b[1..] {
      if x in a[1..] {
        var i :| 0 <= i < |a| - 1 && a[1..][i] == x;
        assert a[i + 1] == x && x != a[0];
        assert x in a && x in b;
        var k :| 0 <= k < |b| && b[k] == x;
        assert k != 0 && b[1..][k - 1] == x;
      }
      if x in b[1..] {
        var j :| 0 <= j < |b| - 1 && b[1..][j] == x;
        assert b[j + 1] == x && x != b[0];
        assert x in b && x in a;
        var k :| 0 <= k < |a| && a[k] == x;
        assert k != 0 && a[1..][k - 1] == x;
      }
    }
  }

  /** Two id-ordered tables holding the same records are the same sequence:
      in a consistent table the stored order is the id order. */
  lemma {:induction false} IdOrderDetermines(a: seq<Record>, b: seq<Record>)
    requires IdsIncreasing(a) && IdsIncreasing(b)
    requires forall x :: x in a <==> x in b
    ensures a == b
  {
    assert a == [] <==> b == [] by {
      if a != [] { assert a[0] in a; }
      if b != [] { assert b[0] in b; }
    }
    if a != [] {
      SameMembersSameHead(a, b);
      IdOrderDetermines(a[1..], b[1..]);
      assert a == [a[0]] + a[1..] && b == [b[0]] + b[1..];
    }
  }

  /** `clear_today` removes exactly the records dated today: a record
      survives if and only if its date is another day, and the survivors keep
      their stored order, so the result is the only id-ordered sequence of
      them. */
  lemma ClearDayExact(t: Table, today: string, s: seq<Record>)
    requires Consistent(t)
    requires IdsIncreasing(s)
    requires forall x :: x in s <==> x in t.records && x.date != today
    ensures ClearDay(t, today).records == s
  {
    RemoveDateKeepsOrder(t.records, today);
    IdOrderDetermines(ClearDay(t, today).records, s);
  }

  /** The attendance table as the running application holds it. */
  class AttendanceTable {
    var records: seq<Record>
    var nextId: nat

    ghost function State(): Table
      reads this
    {
      Table(records, nextId)
    }

    ghost predicate Valid()
      reads this
    {
      Consistent(State())
    }

    constructor ()
      ensures Valid() && State() == EmptyTable
    {
      records := [];
      nextId := 1;
    }

    /** The POST branch of `mark_attendance`. */
    method Mark(submitted: string, today: string, timeNow: string) returns (outcome: MarkOutcome)
      requires Valid()
      modifies this
      ensures Valid()
      ensures (State(), outcome) == MarkAttendance(old(State()), submitted, today, timeNow)
    {
      var name := Text.Strip(submitted);
      if FindFirst(records, name, today).Some? {
        MarkRejected(State(), submitted, today, timeNow);
        outcome := AlreadyMarked;
        return;
      }
      MarkAcceptedConsistent(State(), submitted, today, timeNow);
      outcome := Marked(nextId);
      records, nextId := records + [Record(nextId, name, today, timeNow)], nextId + 1;
    }

    /** The DELETE of `clear_today`. */
    method ClearToday(today: string)
      requires Valid()
      modifies this
      ensures Valid()
      ensures State() == ClearDay(old(State()), today)
    {
      ClearDayPreservesConsistent(State(), today);
      records := RemoveDate(records, today);
    }
  }
}
