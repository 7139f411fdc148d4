/**
 * The rows of `medicine_data.csv`, one per record:
 * `[user, name, dosage, frequency]`. Saving flattens the store in order;
 * loading groups rows by their first column in order of first appearance.
 * Rows are sequences of fields: the CSV text encoding is not modelled.
 */
module Persistence {
  import opened Wrappers
  import opened Records

  type Row = seq<string>

  /** The row `save_to_csv` writes for one record: the due time is not written. */
  function RowOf(user: string, m: Medicine): (row: Row)
    ensures |row| == 4 && row[0] == user
    ensures RecordOf(row) == m.(nextDose := None)
  {
    [user, m.name, m.dosage, m.frequency]
  }

  /** The rows `save_to_csv` writes for one user. */
  function UserRows(user: string, meds: seq<Medicine>): (rows: seq<Row>)
    ensures |rows| == |meds|
    ensures forall k :: 0 <= k < |meds| ==> rows[k] == RowOf(user, meds[k])
  {
    if meds == [] then []
    else UserRows(user, meds[..|meds| - 1]) + [RowOf(user, meds[|meds| - 1])]
  }

  /** The number of records in the store. */
  function RecordCount(us: Users): nat {
    if us == [] then 0 else RecordCount(us[..|us| - 1]) + |us[|us| - 1].meds|
  }

  /** The rows `save_to_csv` writes: every user in store order, every record in list order. */
  function Rows(us: Users): (rows: seq<Row>)
    ensures |rows| == RecordCount(us)
    ensures forall k :: 0 <= k < |rows| ==> |rows[k]| == 4
  {
    if us == [] then []
    else
      var last := us[|us| - 1];
      Rows(us[..|us| - 1]) + UserRows(last.user, last.meds)
  }

  /** Saving a store in two parts writes the rows of the first part, then those of the second. */
  lemma {:induction false} RowsConcat(a: Users, b: Users)
    ensures Rows(a + b) == Rows(a) + Rows(b)
  {
    if b == [] {
      assert a + b == a;
    } else {
      var init, last := b[..|b| - 1], b[|b| - 1];
      assert (a + b)[..|a + b| - 1] == a + init && (a + b)[|a + b| - 1] == last;
      RowsConcat(a, init);
      var x, y, z := Rows(a), Rows(init), UserRows(last.user, last.meds);
      calc {
        Rows(a + b);
        Rows(a + init) + z;
        x + y + z;
        x + (y + z);
        Rows(a) + Rows(b);
      }
    }
  }

  /** The rows of one user form one block: the user's records, in list order. */
  lemma RowsSingle(e: Entry)
    ensures Rows([e]) == UserRows(e.user, e.meds)
  {
    assert [e][..0] == [];
  }

  /** Every row has the four columns `load_user_data` indexes. */
  predicate WellFormed(rows: seq<Row>) {
    forall k :: 0 <= k < |rows| ==> |rows[k]| >= 4
  }

  /** The record a row becomes: its next dose is not stored, so it has none. */
  function RecordOf(row: Row): (m: Medicine)
    requires |row| >= 4
    ensures m.nextDose == None
    ensures [row[0], m.name, m.dosage, m.frequency] == row[..4]
  {
    Medicine(row[1], row[2], row[3], None)
  }

  /** A store as loading leaves it: no user without records, no record with a due time. */
  predicate Reloaded(us: Users) {
    forall e :: e in us ==> e.meds != [] && forall m :: m in e.meds ==> m.nextDose.None?
  }

  /** One iteration of `load_user_data`: create the user if new, then append the row's record. */
  function InsertRow(us: Users, row: Row): (r: Users)
    requires |row| >= 4
    ensures Has(us, row[0]) ==> Keys(r) == Keys(us)
    ensures !Has(us, row[0]) ==> r == us + [Entry(row[0], [RecordOf(row)])]
  {
    var meds := Get(us, row[0]) + [RecordOf(row)];
    if !Has(us, row[0]) then
      assert meds == [RecordOf(row)];
      AssignNew(us, row[0], meds);
      Assign(us, row[0], meds)
    else Assign(us, row[0], meds)
  }

  lemma InsertRowReloaded(us: Users, row: Row)
    requires |row| >= 4 && Reloaded(us)
    ensures Reloaded(InsertRow(us, row))
  {
    var u, meds := row[0], Get(us, row[0]) + [RecordOf(row)];
    AssignEntries(us, u, meds);
    if Has(us, u) { GetEntry(us, u); }
    forall e | e in Assign(us, u, meds)
      ensures e.meds != [] && forall m :: m in e.meds ==> m.nextDose.None?
    {
      if e !in us {
        assert e == Entry(u, meds);
      }
    }
  }

  /** Inserting a row appends its record to the list of the row's user and to no other. */
  lemma InsertRowGet(us: Users, row: Row, u: string)
    requires |row| >= 4
    ensures Get(InsertRow(us, row), u) == Get(us, u) + if row[0] == u then [RecordOf(row)] else []
  {
  }

  /** `load_user_data` run over `rows`, starting from the store `us`. */
  function Load(us: Users, rows: seq<Row>): (r: Users)
    requires WellFormed(rows)
    ensures Keys(us) <= Keys(r)
  {
    if rows == [] then us
    else InsertRow(Load(us, rows[..|rows| - 1]), rows[|rows| - 1])
  }

  /** Loading never gives a user two entries. */
  lemma {:induction false} LoadDistinct(us: Users, rows: seq<Row>)
    requires WellFormed(rows) && DistinctKeys(us)
    ensures DistinctKeys(Load(us, rows))
  {
    if rows != [] {
      var prev := Load(us, rows[..|rows| - 1]);
      var row := rows[|rows| - 1];
      LoadDistinct(us, rows[..|rows| - 1]);
      AssignDistinct(prev, row[0], Get(prev, row[0]) + [RecordOf(row)]);
    }
  }

  /** Loading creates a user only together with a record, and no record with a due time. */
  lemma {:induction false} LoadReloaded(us: Users, rows: seq<Row>)
    requires WellFormed(rows) && Reloaded(us)
    ensures Reloaded(Load(us, rows))
  {
    if rows != [] {
      LoadReloaded(us, rows[..|rows| - 1]);
      InsertRowReloaded(Load(us, rows[..|rows| - 1]), rows[|rows| - 1]);
    }
  }

  /** The records as a reload gives them back: the same fields, no due time. */
  function Unscheduled(meds: seq<Medicine>): (r: seq<Medicine>)
    ensures |r| == |meds|
    ensures forall k :: 0 <= k < |meds| ==> r[k] == meds[k].(nextDose := None)
  {
    if meds == [] then []
    else Unscheduled(meds[..|meds| - 1]) + [meds[|meds| - 1].(nextDose := None)]
  }

  /**
   * What a save followed by a load keeps of a store: the users that have
   * records, in order, with their records unscheduled.
   */
  function Stored(us: Users): (r: Users)
    ensures forall x :: Has(r, x) ==> Has(us, x)
  {
    if us == [] then []
    else
      var init, last := us[..|us| - 1], us[|us| - 1];
      var kept := if last.meds == [] then [] else [Entry(last.user, Unscheduled(last.meds))];
      HasConcat(Stored(init), kept);
      HasConcat(init, [last]);
      assert us == init + [last];
      Stored(init) + kept
  }

  lemma KeysConcat(a: Users, b: Users)
    ensures Keys(a + b) == Keys(a) + Keys(b)
  {
    assert |Keys(a + b)| == |Keys(a) + Keys(b)|;
    forall i | 0 <= i < |a + b| ensures Keys(a + b)[i] == (Keys(a) + Keys(b))[i] {
      if i >= |a| { assert Keys(b)[i - |a|] == b[i - |a|].user; }
    }
  }

  lemma HasConcat(a: Users, b: Users)
    ensures forall x :: Has(a + b, x) <==> Has(a, x) || Has(b, x)
    ensures forall e, x :: Has([e], x) <==> x == e.user
  {
    KeysConcat(a, b);
    forall x ensures Has(a + b, x) <==> Has(a, x) || Has(b, x) {
      HasKeys(a + b, x);
      HasKeys(a, x);
      HasKeys(b, x);
    }
    forall e: Entry, x ensures Has([e], x) <==> x == e.user {
      assert [e][1..] == [];
    }
  }

  /** One step of `Load`: the last row is inserted into the load of the others. */
  lemma LoadLast(us: Users, rows: seq<Row>)
    requires WellFormed(rows) && rows != []
    ensures WellFormed(rows[..|rows| - 1])
    ensures Load(us, rows) == InsertRow(Load(us, rows[..|rows| - 1]), rows[|rows| - 1])
  {
  }

  lemma WellFormedConcat(a: seq<Row>, b: seq<Row>)
    requires WellFormed(a) && WellFormed(b)
    ensures WellFormed(a + b)
  {
    forall k | 0 <= k < |a + b| ensures |(a + b)[k]| >= 4 {
      if k >= |a| { assert (a + b)[k] == b[k - |a|]; }
    }
  }

  /** The last row of a second batch is the last row loaded. */
  lemma LoadConcatLast(us: Users, a: seq<Row>, b: seq<Row>)
    requires WellFormed(a) && WellFormed(b) && b != []
    ensures WellFormed(a + b) && WellFormed(a + b[..|b| - 1])
    ensures Load(us, a + b) == InsertRow(Load(us, a + b[..|b| - 1]), b[|b| - 1])
  {
    WellFormedConcat(a, b);
    var ab := a + b;
    assert ab[..|ab| - 1] == a + b[..|b| - 1];
    assert ab[|ab| - 1] == b[|b| - 1];
    LoadLast(us, ab);
  }

  /** Loading one batch of rows after another is loading them all. */
  lemma {:induction false} LoadConcat(us: Users, a: seq<Row>, b: seq<Row>)
    requires WellFormed(a) && WellFormed(b)
    ensures WellFormed(a + b)
    ensures Load(us, a + b) == Load(Load(us, a), b)
  {
    if b == [] {
      assert a + b == a;
    } else {
      var init, row := b[..|b| - 1], b[|b| - 1];
      LoadConcatLast(us, a, b);
      LoadLast(Load(us, a), b);
      LoadConcat(us, a, init);
      calc {
        Load(us, a + b);
        InsertRow(Load(us, a + init), row);
        InsertRow(Load(Load(us, a), init), row);
        Load(Load(us, a), b);
      }
    }
  }

  /** The rows of a user the store does not know yet become one new entry at the end. */
  lemma {:induction false} LoadUserRows(us: Users, u: string, meds: seq<Medicine>)
    requires !Has(us, u)
    ensures WellFormed(UserRows(u, meds))
    ensures Load(us, UserRows(u, meds)) == if meds == [] then us else us + [Entry(u, Unscheduled(meds))]
  {
    var rows := UserRows(u, meds);
    if meds != [] {
      var init, last := meds[..|meds| - 1], meds[|meds| - 1];
      var rec := RecordOf(RowOf(u, last));
      LoadUserRows(us, u, init);
      assert rows[..|rows| - 1] == UserRows(u, init);
      assert rows[|rows| - 1] == RowOf(u, last);
      LoadLast(us, rows);
      var prev := Load(us, UserRows(u, init));
      var done := Unscheduled(init) + [rec];
      assert Unscheduled(meds) == done;
      InsertUserRow(us, u, init, prev, rec);
    }
  }

  lemma InsertUserRow(us: Users, u: string, init: seq<Medicine>, prev: Users, rec: Medicine)
    requires !Has(us, u)
    requires prev == if init == [] then us else us + [Entry(u, Unscheduled(init))]
    ensures Assign(prev, u, Get(prev, u) + [rec]) == us + [Entry(u, Unscheduled(init) + [rec])]
  {
    if init == [] {
      assert Get(us, u) + [rec] == [rec] == Unscheduled(init) + [rec];
      AssignNew(us, u, [rec]);
    } else {
      LastKey(us, u, Unscheduled(init), Unscheduled(init) + [rec]);
    }
  }

  /**
   * `load(save(s))`: a reload gives back the store with every due time
   * dropped and every user without records gone.
   */
  lemma {:induction false} SaveLoadRoundTrip(us: Users)
    requires DistinctKeys(us)
    ensures WellFormed(Rows(us))
    ensures Load([], Rows(us)) == Stored(us)
  {
    if us != [] {
      var init, last := us[..|us| - 1], us[|us| - 1];
      SaveLoadRoundTrip(init);
      assert !Has(init, last.user) by {
        HasKeys(init, last.user);
        forall i | 0 <= i < |init| ensures Keys(init)[i] != last.user {
          assert init[i] == us[i];
        }
      }
      assert Rows(us) == Rows(init) + UserRows(last.user, last.meds);
      LoadConcat([], Rows(init), UserRows(last.user, last.meds));
      LoadUserRows(Stored(init), last.user, last.meds);
      assert Stored(us) == Stored(init) + if last.meds == [] then [] else [Entry(last.user, Unscheduled(last.meds))];
    }
  }

  /** A store as loading leaves it is its own stored form. */
  lemma {:induction false} StoredReloaded(us: Users)
    requires Reloaded(us)
    ensures Stored(us) == us
  {
    if us != [] {
      var init, last := us[..|us| - 1], us[|us| - 1];
      assert us == init + [last];
      assert Reloaded(init) by {
        forall e | e in init ensures e.meds != [] && forall m :: m in e.meds ==> m.nextDose.None? {
          assert e in us;
        }
      }
      assert last.meds != [] && forall m :: m in last.meds ==> m.nextDose.None? by {
        assert last in us;
      }
      StoredReloaded(init);
      UnscheduledNone(last.meds);
      calc {
        Stored(us);
        Stored(init) + [Entry(last.user, Unscheduled(last.meds))];
        init + [last];
      }
    }
  }

  lemma UnscheduledNone(meds: seq<Medicine>)
    requires forall m :: m in meds ==> m.nextDose.None?
    ensures Unscheduled(meds) == meds
  {
    forall k | 0 <= k < |meds| ensures Unscheduled(meds)[k] == meds[k] {
      assert meds[k] in meds;
    }
  }

  /** Saving what was loaded and loading it again gives the same store. */
  lemma ReloadIsStable(rows: seq<Row>)
    requires WellFormed(rows)
    ensures WellFormed(Rows(Load([], rows)))
    ensures Load([], Rows(Load([], rows))) == Load([], rows)
  {
    LoadDistinct([], rows);
    LoadReloaded([], rows);
    SaveLoadRoundTrip(Load([], rows));
    StoredReloaded(Load([], rows));
  }

  /** The records of the rows whose first column is `u`, in row order. */
  function RecordsFor(rows: seq<Row>, u: string): (r: seq<Medicine>)
    requires WellFormed(rows)
    ensures |r| <= |rows|
  {
    if rows == [] then []
    else
      var row := rows[|rows| - 1];
      RecordsFor(rows[..|rows| - 1], u) + if row[0] == u then [RecordOf(row)] else []
  }

  /** The first columns of the rows, each kept at its first appearance only. */
  function UsersInOrder(rows: seq<Row>): (r: seq<string>)
    requires WellFormed(rows)
    ensures forall x :: x in r <==> exists k :: 0 <= k < |rows| && rows[k][0] == x
  {
    if rows == [] then []
    else
      var init, row := rows[..|rows| - 1], rows[|rows| - 1];
      assert forall k :: 0 <= k < |init| ==> init[k] == rows[k];
      var prev := UsersInOrder(init);
      prev + if row[0] in prev then [] else [row[0]]
  }

  /** Loading appends to each user's list exactly that user's rows, in row order. */
  lemma {:induction false} LoadGet(us: Users, rows: seq<Row>, u: string)
    requires WellFormed(rows)
    ensures Get(Load(us, rows), u) == Get(us, u) + RecordsFor(rows, u)
  {
    if rows == [] {
      assert Get(us, u) + [] == Get(us, u);
    } else {
      var init, row := rows[..|rows| - 1], rows[|rows| - 1];
      LoadLast(us, rows);
      var prev := Load(us, init);
      var added := if row[0] == u then [RecordOf(row)] else [];
      assert Get(Load(us, rows), u) == Get(prev, u) + added by {
        InsertRowGet(prev, row, u);
      }
      assert Get(prev, u) == Get(us, u) + RecordsFor(init, u) by {
        LoadGet(us, init, u);
      }
      assert RecordsFor(rows, u) == RecordsFor(init, u) + added;
      assert Get(us, u) + RecordsFor(init, u) + added == Get(us, u) + (RecordsFor(init, u) + added);
    }
  }

  /** Loading into an empty store lists the users in order of first appearance. */
  lemma {:induction false} LoadKeys(rows: seq<Row>)
    requires WellFormed(rows)
    ensures Keys(Load([], rows)) == UsersInOrder(rows)
  {
    if rows != [] {
      var init, row := rows[..|rows| - 1], rows[|rows| - 1];
      LoadKeys(init);
      var prev := Load([], init);
      var meds := Get(prev, row[0]) + [RecordOf(row)];
      HasKeys(prev, row[0]);
      if !Has(prev, row[0]) {
        AssignNew(prev, row[0], meds);
        KeysConcat(prev, [Entry(row[0], meds)]);
      }
    }
  }

  /**
   * A user whose records come from the file has records without a due time,
   * so a reminder pass over that user's list cannot run.
   */
  lemma LoadedUserCannotTick(rows: seq<Row>, u: string)
    requires WellFormed(rows) && RecordsFor(rows, u) != []
    ensures exists m :: m in CurrentMeds(Load([], rows), Some(u)) && m.nextDose.None?
  {
    LoadGet([], rows, u);
    LoadReloaded([], rows);
    var meds := Get(Load([], rows), u);
    assert meds[0] in meds;
    if Has(Load([], rows), u) {
      GetEntry(Load([], rows), u);
    }
  }
}
