/** The effect of the app's INSERT, UPDATE and DELETE statements on the
    `users` and `medicines` tables, which are held in rowid order. */
module Tables {
  import opened Records
  import opened Sequences
  import opened Schedule

  function IdIsNot(id: int): Medicine -> bool
  {
    (m: Medicine) => m.id != id
  }

  function OwnerIsNot(userId: int): Medicine -> bool
  {
    (m: Medicine) => m.userId != userId
  }

  function UserIdIsNot(userId: int): User -> bool
  {
    (u: User) => u.id != userId
  }

  /** `DELETE FROM medicines WHERE id=?` */
  function DeleteMedicineRows(meds: seq<Medicine>, id: int): (r: seq<Medicine>)
    ensures forall m :: m in r <==> m in meds && m.id != id
  {
    Filter(meds, IdIsNot(id))
  }

  /** `DELETE FROM medicines WHERE user_id=?` */
  function DeleteOwnedRows(meds: seq<Medicine>, userId: int): (r: seq<Medicine>)
    ensures forall m :: m in r <==> m in meds && m.userId != userId
  {
    Filter(meds, OwnerIsNot(userId))
  }

  /** `DELETE FROM users WHERE id=?` */
  function DeleteUserRows(users: seq<User>, userId: int): (r: seq<User>)
    ensures forall u :: u in r <==> u in users && u.id != userId
  {
    Filter(users, UserIdIsNot(userId))
  }

  /** `UPDATE medicines SET name=?, dosage=?, time=? WHERE id=?`: matching rows
      get the three new values, every other column and row stays as it was. */
  function UpdateRows(meds: seq<Medicine>, id: int, name: string, dosage: string, time: string): (r: seq<Medicine>)
    ensures |r| == |meds|
    ensures forall i :: 0 <= i < |meds| ==>
      r[i] == if meds[i].id == id then meds[i].(name := name, dosage := dosage, time := time) else meds[i]
  {
    if |meds| == 0 then []
    else
      var m := meds[0];
      [if m.id == id then m.(name := name, dosage := dosage, time := time) else m]
        + UpdateRows(meds[1..], id, name, dosage, time)
  }

  /** `SELECT * FROM medicines WHERE id=?` followed by `fetchone()`: the row
      with that id, if there is one. */
  function FindMedicine(meds: seq<Medicine>, id: int): (r: Option<Medicine>)
    ensures r.None? <==> forall m :: m in meds ==> m.id != id
    ensures r.Some? ==> r.value in meds && r.value.id == id
  {
    if |meds| == 0 then None
    else if meds[0].id == id then Some(meds[0])
    else
      assert forall m :: m in meds ==> m == meds[0] || m in meds[1..];
      FindMedicine(meds[1..], id)
  }

  predicate HasMedicine(meds: seq<Medicine>, id: int)
  {
    exists m :: m in meds && m.id == id
  }

  /** With unique ids, deleting by id removes exactly one row when the id is
      present and none otherwise. */
  lemma {:induction false} DeleteMedicineRemovesAtMostOne(meds: seq<Medicine>, id: int)
    requires UniqueBy(meds, MedicineId)
    ensures |DeleteMedicineRows(meds, id)| == |meds| - (if HasMedicine(meds, id) then 1 else 0)
  {
    if |meds| > 0 {
      var rest := meds[1..];
      assert meds == [meds[0]] + rest;
      assert UniqueBy(rest, MedicineId) by {
        forall i, j | 0 <= i < j < |rest| ensures rest[i].id != rest[j].id {
          assert rest[i] == meds[i + 1] && rest[j] == meds[j + 1];
        }
      }
      if meds[0].id == id {
        forall m | m in rest ensures IdIsNot(id)(m) {
          var k :| 0 <= k < |rest| && rest[k] == m;
          assert meds[k + 1] == m;
        }
        FilterAll(rest, IdIsNot(id));
      } else {
        DeleteMedicineRemovesAtMostOne(rest, id);
        assert HasMedicine(meds, id) == HasMedicine(rest, id);
      }
    }
  }

  /** Removing one user's rows leaves every other user's schedule as it was. */
  lemma DeleteOwnedKeepsOtherSchedules(meds: seq<Medicine>, userId: int, other: int, today: string)
    requires other != userId
    ensures TodaysMedicines(DeleteOwnedRows(meds, userId), other, today) == TodaysMedicines(meds, other, today)
  {
    FilterAbsorb(meds, OwnerIsNot(userId), ActiveFor(other, today));
  }

  /** An inserted row joins the end of a schedule exactly when it is active. */
  lemma InsertExtendsSchedule(meds: seq<Medicine>, row: Medicine, userId: int, today: string)
    ensures TodaysMedicines(meds + [row], userId, today)
         == TodaysMedicines(meds, userId, today) + (if IsActive(row, userId, today) then [row] else [])
  {
    TodaysMedicinesStable(meds, [row], userId, today);
    assert [row][1..] == [];
  }

  /** The ids of a list of rows, in order. */
  function Ids(meds: seq<Medicine>): (r: seq<int>)
    ensures |r| == |meds|
    ensures forall i :: 0 <= i < |meds| ==> r[i] == meds[i].id
  {
    if |meds| == 0 then [] else [meds[0].id] + Ids(meds[1..])
  }

  /** The update leaves id, owner and dates alone, so it never moves a row into
      or out of anybody's schedule for any day. */
  lemma {:induction false} UpdateKeepsSchedule(
    meds: seq<Medicine>, id: int, name: string, dosage: string, time: string, userId: int, today: string)
    ensures Ids(TodaysMedicines(UpdateRows(meds, id, name, dosage, time), userId, today))
         == Ids(TodaysMedicines(meds, userId, today))
  {
    if |meds| > 0 {
      var u := UpdateRows(meds, id, name, dosage, time);
      assert u == [u[0]] + u[1..];
      assert meds == [meds[0]] + meds[1..];
      assert u[1..] == UpdateRows(meds[1..], id, name, dosage, time);
      UpdateKeepsSchedule(meds[1..], id, name, dosage, time, userId, today);
      var p := ActiveFor(userId, today);
      assert Filter(u, p) == (if p(u[0]) then [u[0]] else []) + Filter(u[1..], p);
      assert Filter(meds, p) == (if p(meds[0]) then [meds[0]] else []) + Filter(meds[1..], p);
      IdsAppend(if p(u[0]) then [u[0]] else [], Filter(u[1..], p));
      IdsAppend(if p(meds[0]) then [meds[0]] else [], Filter(meds[1..], p));
    }
  }

  lemma IdsAppend(a: seq<Medicine>, b: seq<Medicine>)
    ensures Ids(a + b) == Ids(a) + Ids(b)
  {
    assert forall i :: 0 <= i < |a + b| ==> (a + b)[i] == if i < |a| then a[i] else b[i - |a|];
  }

  /** The update keeps the ids, hence their increasing order. */
  lemma UpdateKeepsAscending(meds: seq<Medicine>, id: int, name: string, dosage: string, time: string)
    requires AscendingBy(meds, MedicineId)
    ensures AscendingBy(UpdateRows(meds, id, name, dosage, time), MedicineId)
  {
    var r := UpdateRows(meds, id, name, dosage, time);
    forall i, j | 0 <= i < j < |r| ensures MedicineId(r[i]) < MedicineId(r[j]) {
      assert r[i].id == meds[i].id && r[j].id == meds[j].id;
    }
  }
}
