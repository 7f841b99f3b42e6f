/** The appointments table and the queries the service runs on it. Rows are
    kept in insertion order; every SQL statement of the service is a function
    over that sequence here. */
module Table {

  datatype Option<T> = None | Some(value: T)

  datatype Status = Confirmed | Cancelled

  /** A row of appointments(id, user_id, appointment_date, booked_via_chat,
      status, created_at, updated_at); instants in milliseconds. */
  datatype Appointment = Appointment(
    id: int,
    userId: int,
    date: int,
    viaChat: bool,
    status: Status,
    createdAt: int,
    updatedAt: int)

  /** Matches `status != 'cancelled'`. */
  predicate Active(a: Appointment) { a.status != Cancelled }

  /** `SELECT id FROM appointments WHERE appointment_date = slot AND
      status != 'cancelled'` returns at least one row. */
  predicate Occupied(rows: seq<Appointment>, slot: int): (b: bool)
    ensures b <==> exists a :: a in rows && a.date == slot && Active(a)
  {
    exists i :: 0 <= i < |rows| && rows[i].date == slot && Active(rows[i])
  }

  /** No two active rows share a slot. */
  predicate NoDoubleBooking(rows: seq<Appointment>)
  {
    forall i, j :: 0 <= i < j < |rows| && Active(rows[i]) && Active(rows[j]) ==> rows[i].date != rows[j].date
  }

  /** Row ids are distinct (the id column is a primary key). */
  predicate UniqueIds(rows: seq<Appointment>)
  {
    forall i, j :: 0 <= i < j < |rows| ==> rows[i].id != rows[j].id
  }

  /** Appending one active row keeps the table free of double bookings
      exactly when its slot was free. */
  lemma AppendActiveKeepsNoDoubleBooking(rows: seq<Appointment>, a: Appointment)
    requires NoDoubleBooking(rows) && Active(a)
    ensures NoDoubleBooking(rows + [a]) <==> !Occupied(rows, a.date)
  {
    var rs := rows + [a];
    if Occupied(rows, a.date) {
      var i :| 0 <= i < |rows| && rows[i].date == a.date && Active(rows[i]);
      assert rs[i].date == rs[|rows|].date && Active(rs[i]) && Active(rs[|rows|]);
    } else {
      forall i, j | 0 <= i < j < |rs| && Active(rs[i]) && Active(rs[j])
        ensures rs[i].date != rs[j].date
      {
        if j == |rows| {
          assert rs[i] == rows[i];
        } else {
          assert rs[i] == rows[i] && rs[j] == rows[j];
        }
      }
    }
  }

  /** `SELECT * FROM appointments WHERE id = $1`, first row. */
  function Find(rows: seq<Appointment>, id: int): (r: Option<Appointment>)
    ensures r.None? <==> forall i :: 0 <= i < |rows| ==> rows[i].id != id
    ensures r.Some? ==> exists i :: 0 <= i < |rows| && rows[i] == r.value && r.value.id == id
                                  && forall j :: 0 <= j < i ==> rows[j].id != id
  {
    if rows == [] then None
    else if rows[0].id == id then Some(rows[0])
    else
      var r := Find(rows[1..], id);
      assert r.Some? ==> exists i :: 0 <= i < |rows[1..]| && rows[1..][i] == r.value && r.value.id == id
                                     && forall j :: 0 <= j < i ==> rows[1..][j].id != id;
      if r.Some? then
        var i :| 0 <= i < |rows[1..]| && rows[1..][i] == r.value && r.value.id == id
                 && forall j :: 0 <= j < i ==> rows[1..][j].id != id;
        assert rows[i + 1] == r.value && forall j :: 0 <= j < i + 1 ==> rows[j].id != id;
        r
      else
        r
  }

  /** With distinct ids, the row found is the one row carrying that id. */
  lemma FindUnique(rows: seq<Appointment>, id: int, k: int)
    requires UniqueIds(rows) && 0 <= k < |rows| && rows[k].id == id
    ensures Find(rows, id) == Some(rows[k])
  {
    var i :| 0 <= i < |rows| && rows[i] == Find(rows, id).value && rows[i].id == id
             && forall j :: 0 <= j < i ==> rows[j].id != id;
    assert i == k;
  }

  /** The row as `UPDATE ... SET status='cancelled', updated_at=stamp` leaves
      it: no longer active, stamped, and every other column as it was. */
  function MarkCancelled(a: Appointment, stamp: int): (r: Appointment)
    ensures !Active(r) && r.updatedAt == stamp
    ensures r.id == a.id && r.userId == a.userId && r.date == a.date
            && r.viaChat == a.viaChat && r.createdAt == a.createdAt
  {
    a.(status := Cancelled, updatedAt := stamp)
  }

  /** `UPDATE appointments SET status='cancelled', updated_at=stamp WHERE id=$1`:
      every row with that id is marked, every other row is untouched. */
  function CancelById(rows: seq<Appointment>, id: int, stamp: int): (r: seq<Appointment>)
    ensures |r| == |rows|
    ensures forall i :: 0 <= i < |rows| ==>
      r[i] == if rows[i].id == id then MarkCancelled(rows[i], stamp) else rows[i]
  {
    if rows == [] then []
    else
      var rest := CancelById(rows[1..], id, stamp);
      assert forall i :: 1 <= i < |rows| ==> rows[1..][i - 1] == rows[i];
      [if rows[0].id == id then MarkCancelled(rows[0], stamp) else rows[0]] + rest
  }

  /** With distinct ids, the update touches exactly the row the lookup found. */
  lemma CancelByIdOnlyTarget(rows: seq<Appointment>, id: int, stamp: int)
    requires UniqueIds(rows) && Find(rows, id).Some?
    ensures exists k ::
              0 <= k < |rows| && rows[k] == Find(rows, id).value &&
              CancelById(rows, id, stamp) == rows[k := MarkCancelled(rows[k], stamp)]
  {
    var k :| 0 <= k < |rows| && rows[k] == Find(rows, id).value && rows[k].id == id;
    var r, u := CancelById(rows, id, stamp), rows[k := MarkCancelled(rows[k], stamp)];
    forall i | 0 <= i < |rows| ensures r[i] == u[i] {
      if i < k {
        assert rows[i].id != rows[k].id;
      } else if i > k {
        assert rows[k].id != rows[i].id;
      }
    }
    assert r == u;
  }

  /** After the update a slot is occupied exactly when some row of another
      id holds it actively. */
  lemma CancelByIdOccupied(rows: seq<Appointment>, id: int, stamp: int, slot: int)
    ensures Occupied(CancelById(rows, id, stamp), slot) <==>
      exists i :: 0 <= i < |rows| && rows[i].id != id && rows[i].date == slot && Active(rows[i])
  {
    var r := CancelById(rows, id, stamp);
    if Occupied(r, slot) {
      var i :| 0 <= i < |r| && r[i].date == slot && Active(r[i]);
      assert rows[i].id != id && rows[i].date == slot && Active(rows[i]);
    }
    if exists i :: 0 <= i < |rows| && rows[i].id != id && rows[i].date == slot && Active(rows[i]) {
      var i :| 0 <= i < |rows| && rows[i].id != id && rows[i].date == slot && Active(rows[i]);
      assert r[i] == rows[i];
    }
  }

  /** Cancelling never creates a double booking, and keeps the ids. */
  lemma CancelByIdKeepsInvariants(rows: seq<Appointment>, id: int, stamp: int)
    ensures NoDoubleBooking(rows) ==> NoDoubleBooking(CancelById(rows, id, stamp))
    ensures UniqueIds(rows) ==> UniqueIds(CancelById(rows, id, stamp))
  {
    var r := CancelById(rows, id, stamp);
    assert forall i :: 0 <= i < |rows| ==>
      r[i].id == rows[i].id && r[i].date == rows[i].date && (Active(r[i]) ==> Active(rows[i]));
  }

  // ---------------------------------------------------------------------------
  // SELECT * FROM appointments WHERE user_id=$1 ORDER BY appointment_date ASC
  // ---------------------------------------------------------------------------

  /** `WHERE user_id = user`, in table order: each row of the user, with its
      multiplicity, and nothing else. */
  function OwnedBy(rows: seq<Appointment>, user: int): (r: seq<Appointment>)
    ensures forall a :: a in r <==> a in rows && a.userId == user
    ensures forall a :: multiset(r)[a] == if a.userId == user then multiset(rows)[a] else 0
  {
    if rows == [] then []
    else
      var rest := OwnedBy(rows[1..], user);
      assert rows == [rows[0]] + rows[1..];
      if rows[0].userId == user then [rows[0]] + rest else rest
  }

  predicate SortedByDate(s: seq<Appointment>)
  {
    forall i, j :: 0 <= i < j < |s| ==> s[i].date <= s[j].date
  }

  /** Insert one row into a date-ordered sequence. */
  function InsertByDate(a: Appointment, s: seq<Appointment>): (r: seq<Appointment>)
    requires SortedByDate(s)
    ensures SortedByDate(r)
    ensures multiset(r) == multiset(s) + multiset{a}
  {
    if s == [] then [a]
    else if a.date <= s[0].date then [a] + s
    else
      var rest := InsertByDate(a, s[1..]);
      assert s == [s[0]] + s[1..];
      BoundedByMultiset(rest, s[1..], a, s[0].date);
      LeastPrepended(s[0], rest);
      [s[0]] + rest
  }

  /** A lower bound on the dates of s and of a bounds every row of a
      sequence holding the rows of s and a. */
  lemma BoundedByMultiset(r: seq<Appointment>, s: seq<Appointment>, a: Appointment, b: int)
    requires multiset(r) == multiset(s) + multiset{a}
    requires b <= a.date && forall k :: 0 <= k < |s| ==> b <= s[k].date
    ensures forall k :: 0 <= k < |r| ==> b <= r[k].date
  {
    forall k | 0 <= k < |r| ensures b <= r[k].date {
      var x := r[k];
      assert x in multiset(r);
      if x != a {
        assert x in multiset(s);
        var j :| 0 <= j < |s| && s[j] == x;
      }
    }
  }

  /** A row no later than every row of a sorted sequence can go in front. */
  lemma LeastPrepended(a: Appointment, s: seq<Appointment>)
    requires SortedByDate(s)
    requires forall k :: 0 <= k < |s| ==> a.date <= s[k].date
    ensures SortedByDate([a] + s)
  {
    var r := [a] + s;
    forall i, j | 0 <= i < j < |r| ensures r[i].date <= r[j].date {
      if i > 0 {
        assert r[i] == s[i - 1] && r[j] == s[j - 1];
      } else {
        assert r[j] == s[j - 1];
      }
    }
  }

  /** ORDER BY appointment_date ASC. */
  function SortByDate(s: seq<Appointment>): (r: seq<Appointment>)
    ensures SortedByDate(r)
    ensures multiset(r) == multiset(s)
  {
    if s == [] then []
    else
      assert s == [s[0]] + s[1..];
      InsertByDate(s[0], SortByDate(s[1..]))
  }
}
