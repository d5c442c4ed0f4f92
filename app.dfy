/** The view functions of the app, over an in-memory copy of its two tables.
    The session, the request arguments and today's date are parameters; a
    redirect or a rendered page is a `Response` value. */
module App {
  import opened Records
  import opened Sequences
  import opened Schedule
  import opened Report
  import opened UserSearch
  import opened Tables

  datatype Response =
    | RedirectToLogin
    | RedirectToDashboard
    | RedirectToAdminDashboard
    | Refusal(message: string)
    | DashboardPage(morning: seq<Medicine>, afternoon: seq<Medicine>, night: seq<Medicine>)
    | AdminPage(users: seq<User>, medicines: seq<Medicine>, totalUsers: nat, totalMedicines: nat)
    /** The document written to `pill_schedule.pdf` before the redirect to
        the download route. */
    | PdfDownload(elements: seq<Block>)
    | EditPage(medicine: Option<Medicine>)

  const SELF_DELETE_MESSAGE := "You cannot delete your own admin account!"

  /** A table's integrity as SQLite keeps it: rows are held in rowid order, so
      ids increase from front to back, and every id is below the AUTOINCREMENT
      counter, so a newly assigned id is fresh and belongs at the end. */
  predicate TablesValid(users: seq<User>, medicines: seq<Medicine>, nextUserId: int, nextMedicineId: int)
  {
    && AscendingBy(users, UserId)
    && AscendingBy(medicines, MedicineId)
    && (forall u :: u in users ==> u.id < nextUserId)
    && (forall m :: m in medicines ==> m.id < nextMedicineId)
  }

  /** The report lists every recognised medicine active today exactly once:
      read back, it holds one entry per such row, bucket by bucket. */
  lemma PdfListsEveryScheduledMedicine(meds: seq<Medicine>, userId: int, today: string)
    ensures var t := TodaysMedicines(meds, userId, today);
      var read := ReadReport(ScheduleReport(InBucket(t, MORNING), InBucket(t, AFTERNOON), InBucket(t, NIGHT)));
      && read == Some(Summary(Entries(InBucket(t, MORNING)), Entries(InBucket(t, AFTERNOON)), Entries(InBucket(t, NIGHT))))
      && |read.value.morning| + |read.value.afternoon| + |read.value.night| == |Recognized(t)|
  {
    var t := TodaysMedicines(meds, userId, today);
    ReportRoundTrip(InBucket(t, MORNING), InBucket(t, AFTERNOON), InBucket(t, NIGHT));
    BucketsPartition(t);
  }

  class Database {
    var users: seq<User>
    var medicines: seq<Medicine>
    /** The AUTOINCREMENT counters of the two tables. */
    var nextUserId: int
    var nextMedicineId: int

    ghost predicate Valid()
      reads this
    {
      TablesValid(users, medicines, nextUserId, nextMedicineId)
    }

    constructor (users0: seq<User>, medicines0: seq<Medicine>, nextUserId0: int, nextMedicineId0: int)
      requires TablesValid(users0, medicines0, nextUserId0, nextMedicineId0)
      ensures Valid()
      ensures users == users0 && medicines == medicines0
      ensures nextUserId == nextUserId0 && nextMedicineId == nextMedicineId0
    {
      users, medicines := users0, medicines0;
      nextUserId, nextMedicineId := nextUserId0, nextMedicineId0;
    }

    /** Route `/dashboard`. */
    method Dashboard(session: Session, today: string) returns (r: Response)
      requires Valid()
      ensures !IsSignedIn(session) ==> r == RedirectToLogin
      ensures IsSignedIn(session) ==>
        var t := TodaysMedicines(medicines, session.userId, today);
        r == DashboardPage(InBucket(t, MORNING), InBucket(t, AFTERNOON), InBucket(t, NIGHT))
      ensures IsSignedIn(session) ==>
        AscendingBy(r.morning, MedicineId) && AscendingBy(r.afternoon, MedicineId) && AscendingBy(r.night, MedicineId)
    {
      if !IsSignedIn(session) {
        return RedirectToLogin;
      }
      var todays := TodaysMedicines(medicines, session.userId, today);
      var morning, afternoon, night := Classify(todays);
      FilterKeepsAscending(medicines, ActiveFor(session.userId, today), MedicineId);
      FilterKeepsAscending(todays, HasTime(MORNING), MedicineId);
      FilterKeepsAscending(todays, HasTime(AFTERNOON), MedicineId);
      FilterKeepsAscending(todays, HasTime(NIGHT), MedicineId);
      r := DashboardPage(morning, afternoon, night);
    }

    /** Route `/generate_pdf`: the same query and the same classification as
        the dashboard, laid out by `add_section`. */
    method GeneratePdf(session: Session, today: string) returns (r: Response)
      ensures !IsSignedIn(session) ==> r == RedirectToLogin
      ensures IsSignedIn(session) ==>
        var t := TodaysMedicines(medicines, session.userId, today);
        r == PdfDownload(ScheduleReport(InBucket(t, MORNING), InBucket(t, AFTERNOON), InBucket(t, NIGHT)))
    {
      if !IsSignedIn(session) {
        return RedirectToLogin;
      }
      var todays := TodaysMedicines(medicines, session.userId, today);
      var doc := new PdfDocument();
      doc.Append(Title(REPORT_TITLE));
      var morning, afternoon, night := Classify(todays);
      ghost var title := [Title(REPORT_TITLE)];
      assert doc.elements == title;
      doc.AddSection(MORNING, morning);
      assert doc.elements == title + Section(MORNING, morning);
      doc.AddSection(AFTERNOON, afternoon);
      assert doc.elements == title + Section(MORNING, morning) + Section(AFTERNOON, afternoon);
      doc.AddSection(NIGHT, night);
      assert doc.elements == ScheduleReport(morning, afternoon, night);
      r := PdfDownload(doc.elements);
    }

    /** Route `/admin_dashboard`. */
    method AdminDashboard(session: Session, search: Option<string>) returns (r: Response)
      requires Valid()
      ensures !IsAdmin(session) ==> r == RedirectToLogin
      ensures IsAdmin(session) ==> r.AdminPage? && r.medicines == medicines
      ensures IsAdmin(session) ==> r.users == SearchUsers(users, search)
      ensures IsAdmin(session) ==> r.totalUsers == |r.users| && r.totalMedicines == |medicines|
      ensures IsAdmin(session) ==> AscendingBy(r.users, UserId) && AscendingBy(r.medicines, MedicineId)
    {
      if !IsAdmin(session) {
        return RedirectToLogin;
      }
      var found := SearchUsers(users, search);
      if search.Some? && search.value != "" {
        FilterKeepsAscending(users, Matches(search.value), UserId);
      }
      r := AdminPage(found, medicines, |found|, |medicines|);
    }

    /** Route `/delete_user/<id>`: the user's medicines first, then the user. */
    method DeleteUser(session: Session, userId: int) returns (r: Response)
      requires Valid()
      modifies this
      ensures Valid()
      ensures nextUserId == old(nextUserId) && nextMedicineId == old(nextMedicineId)
      ensures !IsAdmin(session) ==> r == RedirectToLogin
      ensures IsAdmin(session) && userId == session.userId ==> r == Refusal(SELF_DELETE_MESSAGE)
      ensures !IsAdmin(session) || userId == session.userId ==>
        users == old(users) && medicines == old(medicines)
      ensures IsAdmin(session) && userId != session.userId ==>
        && r == RedirectToAdminDashboard
        && medicines == DeleteOwnedRows(old(medicines), userId)
        && users == DeleteUserRows(old(users), userId)
    {
      if !IsAdmin(session) {
        return RedirectToLogin;
      }
      if userId == session.userId {
        return Refusal(SELF_DELETE_MESSAGE);
      }
      FilterKeepsAscending(medicines, OwnerIsNot(userId), MedicineId);
      FilterKeepsAscending(users, UserIdIsNot(userId), UserId);
      medicines := DeleteOwnedRows(medicines, userId);
      users := DeleteUserRows(users, userId);
      r := RedirectToAdminDashboard;
    }

    /** Route `/delete_medicine_admin/<id>`. */
    method DeleteMedicineAdmin(session: Session, medId: int) returns (r: Response)
      requires Valid()
      modifies this
      ensures Valid()
      ensures users == old(users)
      ensures nextUserId == old(nextUserId) && nextMedicineId == old(nextMedicineId)
      ensures !IsAdmin(session) ==> r == RedirectToLogin && medicines == old(medicines)
      ensures IsAdmin(session) ==>
        r == RedirectToAdminDashboard && medicines == DeleteMedicineRows(old(medicines), medId)
      ensures IsAdmin(session) ==>
        |medicines| == |old(medicines)| - (if HasMedicine(old(medicines), medId) then 1 else 0)
    {
      if !IsAdmin(session) {
        return RedirectToLogin;
      }
      FilterKeepsAscending(medicines, IdIsNot(medId), MedicineId);
      AscendingIsUnique(medicines, MedicineId);
      DeleteMedicineRemovesAtMostOne(medicines, medId);
      medicines := DeleteMedicineRows(medicines, medId);
      r := RedirectToAdminDashboard;
    }

    /** Route `/add_medicine` on POST. Nothing on the form is validated. */
    method AddMedicine(session: Session, name: string, dosage: string, time: string, start: string, end: string)
      returns (r: Response)
      requires Valid()
      modifies this
      ensures Valid()
      ensures users == old(users) && nextUserId == old(nextUserId)
      ensures !IsSignedIn(session) ==>
        r == RedirectToLogin && medicines == old(medicines) && nextMedicineId == old(nextMedicineId)
      ensures IsSignedIn(session) ==>
        && r == RedirectToDashboard
        && medicines == old(medicines) + [Medicine(old(nextMedicineId), session.userId, name, dosage, time, start, end)]
        && nextMedicineId == old(nextMedicineId) + 1
        && !HasMedicine(old(medicines), old(nextMedicineId))
    {
      if !IsSignedIn(session) {
        return RedirectToLogin;
      }
      var row := Medicine(nextMedicineId, session.userId, name, dosage, time, start, end);
      ghost var before := medicines;
      medicines := medicines + [row];
      nextMedicineId := nextMedicineId + 1;
      assert forall i :: 0 <= i < |before| ==> medicines[i] == before[i] && before[i] in before;
      r := RedirectToDashboard;
    }

    /** Route `/delete/<id>`, which checks neither the session nor the owner. */
    method Delete(id: int) returns (r: Response)
      requires Valid()
      modifies this
      ensures Valid()
      ensures users == old(users)
      ensures nextUserId == old(nextUserId) && nextMedicineId == old(nextMedicineId)
      ensures r == RedirectToDashboard && medicines == DeleteMedicineRows(old(medicines), id)
      ensures |medicines| == |old(medicines)| - (if HasMedicine(old(medicines), id) then 1 else 0)
    {
      FilterKeepsAscending(medicines, IdIsNot(id), MedicineId);
      AscendingIsUnique(medicines, MedicineId);
      DeleteMedicineRemovesAtMostOne(medicines, id);
      medicines := DeleteMedicineRows(medicines, id);
      r := RedirectToDashboard;
    }

    /** Route `/edit_medicine/<id>` on GET: the row to prefill the form with. */
    method EditMedicineForm(session: Session, medId: int) returns (r: Response)
      ensures !IsSignedIn(session) ==> r == RedirectToLogin
      ensures IsSignedIn(session) ==> r.EditPage?
      ensures IsSignedIn(session) && r.medicine.Some? ==> r.medicine.value in medicines && r.medicine.value.id == medId
      ensures IsSignedIn(session) && r.medicine.None? ==> forall m :: m in medicines ==> m.id != medId
    {
      if !IsSignedIn(session) {
        return RedirectToLogin;
      }
      r := EditPage(FindMedicine(medicines, medId));
    }

    /** Route `/edit_medicine/<id>` on POST. The owner is not checked. */
    method EditMedicine(session: Session, medId: int, name: string, dosage: string, time: string)
      returns (r: Response)
      requires Valid()
      modifies this
      ensures Valid()
      ensures users == old(users)
      ensures nextUserId == old(nextUserId) && nextMedicineId == old(nextMedicineId)
      ensures !IsSignedIn(session) ==> r == RedirectToLogin && medicines == old(medicines)
      ensures IsSignedIn(session) ==>
        r == RedirectToDashboard && medicines == UpdateRows(old(medicines), medId, name, dosage, time)
    {
      if !IsSignedIn(session) {
        return RedirectToLogin;
      }
      UpdateKeepsAscending(medicines, medId, name, dosage, time);
      medicines := UpdateRows(medicines, medId, name, dosage, time);
      r := RedirectToDashboard;
    }
  }
}
