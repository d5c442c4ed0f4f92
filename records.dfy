/** The rows of the two tables and the per-request session of the app. */
module Records {

  datatype Option<+T> = None | Some(value: T)

  /** A row of the `medicines` table: (id, user_id, name, dosage, time,
      start_date, end_date). `time` holds the bucket name chosen on the form,
      and the dates are `YYYY-MM-DD` text; neither is validated on insert. */
  datatype Medicine = Medicine(
    id: int,
    userId: int,
    name: string,
    dosage: string,
    time: string,
    startDate: string,
    endDate: string)

  /** A row of the `users` table as the admin page selects it:
      (id, username, is_admin). The password hash is not modelled. */
  datatype User = User(id: int, username: string, isAdmin: int)

  /** The Flask session: either empty, or the `user_id` and `is_admin`
      values stored at login. */
  datatype Session = Anonymous | SignedIn(userId: int, isAdmin: int)

  /** The guard `'user_id' in session`. */
  predicate IsSignedIn(s: Session)
  {
    s.SignedIn?
  }

  /** The guard of the admin routes: signed in and `session['is_admin'] == 1`. */
  predicate IsAdmin(s: Session)
  {
    s.SignedIn? && s.isAdmin == 1
  }

  function MedicineId(m: Medicine): int
  {
    m.id
  }

  function UserId(u: User): int
  {
    u.id
  }
}
