/** The request handlers around the attendance table: the login form, the
    logout link, the `login_required` gate on the teacher's pages, the public
    marking form, the dashboard, clearing the day and the export. The
    session is the single `logged_in` flag; the current date and time are
    parameters. */
module Web {
  import opened Wrappers
  import Store
  import Stats
  import Export
  import Text

  const TeacherUsername := "teacher"
  const TeacherPassword := "1234"
  const InvalidLogin := "Invalid login details"

  const LoginPath := "/login"
  const DashboardPath := "/dashboard"
  const SuccessPath := "/success"

  /** The credential check of the login form. */
  predicate CredentialsMatch(username: string, password: string)
  {
    username == TeacherUsername && password == TeacherPassword
  }

  // ---------------------------------------------------------------------
  // The session flag as a state machine

  datatype SessionEvent =
    | LoginForm                                    // GET /login
    | LoginSubmit(username: string, password: string)  // POST /login
    | Logout                                       // GET /logout

  /** The `logged_in` flag after one request to the login or logout route. */
  function Step(loggedIn: bool, e: SessionEvent): (r: bool)
    ensures r && !loggedIn ==> IsValidLogin(e)
    ensures IsValidLogin(e) ==> r
    ensures e.Logout? ==> !r
    ensures loggedIn && !e.Logout? ==> r
  {
    match e
    case LoginForm => loggedIn
    case LoginSubmit(u, p) => if CredentialsMatch(u, p) then true else loggedIn
    case Logout => false
  }

  /** The flag after a sequence of such requests. */
  function Run(loggedIn: bool, es: seq<SessionEvent>): bool
  {
    if es == [] then loggedIn else Step(Run(loggedIn, es[..|es| - 1]), es[|es| - 1])
  }

  predicate IsValidLogin(e: SessionEvent)
  {
    e.LoginSubmit? && CredentialsMatch(e.username, e.password)
  }

  /** Starting logged out, a session is logged in exactly when some login
      with the configured credentials has not been followed by a logout. */
  lemma {:induction false} LoggedInIffValidLogin(es: seq<SessionEvent>)
    ensures Run(false, es) <==>
      exists i :: 0 <= i < |es| && IsValidLogin(es[i]) && forall j :: i < j < |es| ==> !es[j].Logout?
  {
    if es != [] {
      var n := |es| - 1;
      var init := es[..n];
      LoggedInIffValidLogin(init);
      if IsValidLogin(es[n]) {
        assert Run(false, es);
      } else if es[n].Logout? {
        assert !Run(false, es);
        forall i | 0 <= i < |es| && IsValidLogin(es[i])
          ensures exists j :: i < j < |es| && es[j].Logout?
        {
          assert i != n;
        }
      } else {
        if Run(false, es) {
          var i :| 0 <= i < |init| && IsValidLogin(init[i]) && forall j :: i < j < |init| ==> !init[j].Logout?;
          assert es[i] == init[i];
          forall j | i < j < |es| ensures !es[j].Logout? {
            if j < n { assert es[j] == init[j]; }
          }
        }
        if exists i :: 0 <= i < |es| && IsValidLogin(es[i]) && forall j :: i < j < |es| ==> !es[j].Logout? {
          var i :| 0 <= i < |es| && IsValidLogin(es[i]) && forall j :: i < j < |es| ==> !es[j].Logout?;
          assert i != n;
          assert init[i] == es[i];
          forall j | i < j < |init| ensures !init[j].Logout? {
            assert init[j] == es[j];
          }
        }
      }
    }
  }

  // ---------------------------------------------------------------------
  // Handlers

  /** What a handler sends back. */
  datatype Response =
    | Redirect(location: string)
    | LoginPage(error: Option<string>)
    | DashboardPage(view: Stats.DashboardView)
    | MarkPage(today: string)
    | AlreadyMarkedPage
    | Workbook(rows: seq<seq<string>>)

  class App {
    var loggedIn: bool
    const table: Store.AttendanceTable

    ghost predicate Valid()
      reads this, table
    {
      table.Valid()
    }

    constructor ()
      ensures Valid() && !loggedIn && fresh(table)
      ensures table.State() == Store.EmptyTable
    {
      loggedIn := false;
      table := new Store.AttendanceTable();
    }

    /** `/login`: a GET (no form) renders the form; a POST sets the flag and
        goes to the dashboard when both credentials match, and otherwise
        renders the form with an error and leaves the flag as it was. */
    method LoginRequest(form: Option<(string, string)>) returns (resp: Response)
      modifies this
      ensures loggedIn == Step(old(loggedIn), if form.Some? then LoginSubmit(form.value.0, form.value.1) else LoginForm)
      ensures form.None? ==> resp == LoginPage(None)
      ensures form.Some? && CredentialsMatch(form.value.0, form.value.1) ==> resp == Redirect(DashboardPath)
      ensures form.Some? && !CredentialsMatch(form.value.0, form.value.1) ==> resp == LoginPage(Some(InvalidLogin))
    {
      if form.None? {
        return LoginPage(None);
      }
      var (username, password) := form.value;
      if username == TeacherUsername && password == TeacherPassword {
        loggedIn := true;
        return Redirect(DashboardPath);
      }
      resp := LoginPage(Some(InvalidLogin));
    }

    /** `/logout`: clears the session. */
    method LogoutRequest() returns (resp: Response)
      modifies this
      ensures loggedIn == Step(old(loggedIn), Logout) && !loggedIn
      ensures resp == Redirect(LoginPath)
    {
      loggedIn := false;
      resp := Redirect(LoginPath);
    }

    /** `/dashboard`, behind the gate. */
    method DashboardRequest(today: string) returns (resp: Response)
      requires Valid()
      ensures !loggedIn ==> resp == Redirect(LoginPath)
      ensures loggedIn ==> resp == DashboardPage(Stats.Dashboard(table.records, today))
    {
      if !loggedIn {
        return Redirect(LoginPath);
      }
      resp := DashboardPage(Stats.Dashboard(table.records, today));
    }

    /** `/clear_today`, behind the gate: the table changes only when the
        flag is set. */
    method ClearTodayRequest(today: string) returns (resp: Response)
      requires Valid()
      modifies table
      ensures Valid()
      ensures !loggedIn ==> resp == Redirect(LoginPath) && table.State() == old(table.State())
      ensures loggedIn ==> resp == Redirect(DashboardPath) && table.State() == Store.ClearDay(old(table.State()), today)
    {
      if !loggedIn {
        return Redirect(LoginPath);
      }
      table.ClearToday(today);
      resp := Redirect(DashboardPath);
    }

    /** `/export`, behind the gate. */
    method ExportRequest() returns (resp: Response)
      requires Valid()
      ensures !loggedIn ==> resp == Redirect(LoginPath)
      ensures loggedIn ==> resp.Workbook? && |resp.rows| == |table.records| + 1 && resp.rows[0] == Export.Header
      ensures loggedIn ==> forall i :: 0 <= i < |table.records| ==> resp.rows[i + 1] == Export.Row(table.records[i])
    {
      if !loggedIn {
        return Redirect(LoginPath);
      }
      var rows := Export.ExportRows(table.records);
      resp := Workbook(rows);
    }

    /** `/mark`, public: a GET (no form) renders the form for today; a POST
        records the submitted name or reports that it was already marked. */
    method MarkRequest(form: Option<string>, today: string, timeNow: string) returns (resp: Response)
      requires Valid()
      modifies table
      ensures Valid()
      ensures form.None? ==> resp == MarkPage(today) && table.State() == old(table.State())
      ensures form.Some? ==>
        var (t, outcome) := Store.MarkAttendance(old(table.State()), form.value, today, timeNow);
        && table.State() == t
        && resp == (if outcome == Store.AlreadyMarked then AlreadyMarkedPage else Redirect(SuccessPath))
    {
      if form.None? {
        return MarkPage(today);
      }
      var outcome := table.Mark(form.value, today, timeNow);
      if outcome == Store.AlreadyMarked {
        return AlreadyMarkedPage;
      }
      resp := Redirect(SuccessPath);
    }
  }

  /** On an empty table, a name marked and then resubmitted the same day
      with whitespace around it: the first mark gets id 1, the second is
      rejected and changes nothing, and the day shows one present. */
  lemma MarkTwiceOnEmptyTable(name: string, pre: string, post: string, day: string, time1: string, time2: string)
    requires Text.AllSpace(pre) && Text.AllSpace(post)
    ensures var (t1, outcome) := Store.MarkAttendance(Store.EmptyTable, name, day, time1);
      && outcome == Store.Marked(1)
      && Store.MarkAttendance(t1, pre + name + post, day, time2) == (t1, Store.AlreadyMarked)
      && Stats.Dashboard(t1.records, day).presentToday == 1
  {
    var record := Store.Record(1, Text.Strip(name), day, time1);
    Store.FirstMarkOnEmptyTable(name, day, time1);
    Text.StripIgnoresSurroundingSpace(pre, name, post);
    Store.MarkTwiceRejected(Store.EmptyTable, name, pre + name + post, day, time1, time2);
    Stats.OneRecordPresent(record, day);
  }

  /** A student marking twice on one day on a fresh application: the
      second submission, even with whitespace around the name, is rejected,
      and the dashboard counts one present. */
  method MarkTwiceScenario(name: string, pre: string, post: string, day: string, time1: string, time2: string)
    returns (first: Response, second: Response, present: nat)
    requires Text.AllSpace(pre) && Text.AllSpace(post)
    ensures first == Redirect(SuccessPath)
    ensures second == AlreadyMarkedPage
    ensures present == 1
  {
    var app := new App();
    var _ := app.LoginRequest(Some((TeacherUsername, TeacherPassword)));
    assert app.loggedIn;
    MarkTwiceOnEmptyTable(name, pre, post, day, time1, time2);
    ghost var t1 := Store.MarkAttendance(Store.EmptyTable, name, day, time1).0;
    first := app.MarkRequest(Some(name), day, time1);
    assert app.table.State() == t1;
    second := app.MarkRequest(Some(pre + name + post), day, time2);
    assert app.table.State() == t1;
    var page := app.DashboardRequest(day);
    present := page.view.presentToday;
  }
}
