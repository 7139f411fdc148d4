/**
 * `MedicineApp` without its widgets: the store of users and records, the
 * logged-in user, and the rows last written to `medicine_data.csv`. Each
 * button handler is a method; the user's input (the typed username, the
 * answer to the registration question, the form fields, the names selected
 * in the table) and the clock are its parameters.
 */
module App {
  import opened Wrappers
  import opened Records
  import opened Scheduler
  import opened Persistence

  datatype LoginOutcome = LoggedIn | Registered | Declined

  /**
   * `MissingFields` is the warning dialog; `InvalidFrequency` is the
   * `ValueError` of `int()` or the `OverflowError` of the due-time sum.
   */
  datatype AddOutcome = Added | MissingFields | InvalidFrequency

  /**
   * `NothingSelected` is the warning dialog. `StaleRow` is the error tkinter
   * raises when the loop reads a selected row that the redraw after a
   * removal has deleted; `Done` is a loop that ran to its end.
   */
  datatype DeleteOutcome = NothingSelected | Done | StaleRow

  /**
   * The invariant of the application state: one entry per user, the
   * logged-in user has one, and every scheduled record has a frequency
   * that parses.
   */
  ghost predicate StoreValid(us: Users, cur: Option<string>) {
    && DistinctKeys(us)
    && (cur.Some? ==> Has(us, cur.value))
    && forall w, m :: m in Get(us, w) ==> Consistent(m)
  }

  /** Assigning a list of consistent records to a key keeps the invariant. */
  lemma AssignValid(us: Users, cur: Option<string>, u: string, v: seq<Medicine>)
    requires StoreValid(us, cur)
    requires forall m :: m in v ==> Consistent(m)
    ensures StoreValid(Assign(us, u, v), cur)
  {
    AssignDistinct(us, u, v);
    if Has(us, u) {
      if cur.Some? {
        HasKeys(us, cur.value);
        HasKeys(Assign(us, u, v), cur.value);
      }
    } else {
      AssignNew(us, u, v);
      HasConcat(us, [Entry(u, v)]);
    }
  }

  /** Adding a record to a user's list adds exactly its row to that user's table. */
  lemma ListingAfterAppend(us: Users, u: string, m: Medicine)
    ensures Listing(Assign(us, u, Get(us, u) + [m]), Some(u)) == Listing(us, Some(u)) + [(m.name, m.dosage, m.frequency)]
  {
    var meds := Get(us, u) + [m];
    assert meds[..|meds| - 1] == Get(us, u);
  }

  /** The index of the first record named `name`: the row `delete_medicine` removes. */
  method FindFirst(meds: seq<Medicine>, name: string) returns (j: nat)
    ensures j == FindName(meds, name)
  {
    j := 0;
    while j < |meds| && meds[j].name != name
      invariant 0 <= j <= |meds|
      invariant forall k :: 0 <= k < j ==> meds[k].name != name
    {
      j := j + 1;
    }
  }

  /**
   * The body of the `for med in ...` loop of `check_medicines_schedule`: a
   * due record is announced and gets its next due time.
   */
  method TickRecord(m: Medicine, now: int) returns (r: Medicine, reminder: seq<string>)
    requires Schedulable(m)
    ensures r == TickOne(m, now)
    ensures reminder == if Due(m, now) then [m.name] else []
  {
    r := m;
    reminder := [];
    if now >= m.nextDose.value {
      reminder := [m.name];
      var next := CalculateNextDose(m, now);
      r := next.value;
    }
  }

  /**
   * The `for med in ...` loop of `check_medicines_schedule` at time `now`:
   * each due record is announced and gets its next due time, in list order.
   */
  method TickList(meds: seq<Medicine>, now: int) returns (r: seq<Medicine>, reminders: seq<string>)
    requires forall m :: m in meds ==> Schedulable(m)
    ensures r == TickMeds(meds, now)
    ensures reminders == DueNames(meds, now)
  {
    r := meds;
    reminders := [];
    var i := 0;
    while i < |r|
      invariant 0 <= i <= |r| == |meds|
      invariant forall k :: 0 <= k < i ==> r[k] == TickOne(meds[k], now)
      invariant forall k :: i <= k < |meds| ==> r[k] == meds[k]
      invariant reminders == DueNames(meds[..i], now)
    {
      assert meds[i] in meds;
      DueNamesPrefix(meds, i, now);
      var ticked, reminder := TickRecord(r[i], now);
      r := r[i := ticked];
      reminders := reminders + reminder;
      i := i + 1;
    }
    assert meds[..i] == meds;
  }

  class MedicineApp {
    var users: Users
    var currentUser: Option<string>
    /** The rows of `medicine_data.csv` as last written (or as found at start-up). */
    var savedRows: seq<Row>

    /** The file holds exactly the rows of the store. */
    predicate Synced()
      reads this
    {
      savedRows == Rows(users)
    }

    ghost predicate Valid()
      reads this
    {
      StoreValid(users, currentUser)
    }

    /** `__init__`: an empty store, no user, then `load_user_data` over the file's rows. */
    constructor (stored: seq<Row>)
      requires WellFormed(stored)
      ensures Valid()
      ensures users == Load([], stored) && currentUser == None && savedRows == stored
    {
      users := [];
      currentUser := None;
      savedRows := stored;
      new;
      LoadUserData();
    }

    /**
     * The body of `load_user_data`'s loop: the user is created with an empty
     * list when first seen, then the record is appended to that list.
     */
    method AppendRecord(username: string, medicine: Medicine)
      requires Valid() && medicine.nextDose == None
      modifies this`users
      ensures Valid()
      ensures users == Assign(old(users), username, Get(old(users), username) + [medicine])
    {
      if !Has(users, username) {
        AssignValid(users, currentUser, username, []);
        users := Assign(users, username, []);
        AssignTwice(old(users), username, [], [medicine]);
        assert Get(users, username) + [medicine] == [medicine] == Get(old(users), username) + [medicine];
      }
      AssignValid(users, currentUser, username, Get(users, username) + [medicine]);
      users := Assign(users, username, Get(users, username) + [medicine]);
    }

    /** `load_user_data`: the file's rows are folded into the store in order. */
    method LoadUserData()
      requires Valid() && WellFormed(savedRows)
      modifies this`users
      ensures Valid()
      ensures users == Load(old(users), savedRows)
    {
      var i := 0;
      while i < |savedRows|
        invariant 0 <= i <= |savedRows|
        invariant WellFormed(savedRows[..i])
        invariant Valid()
        invariant users == Load(old(users), savedRows[..i])
      {
        var row := savedRows[i];
        AppendRecord(row[0], Medicine(row[1], row[2], row[3], None));
        assert savedRows[..i + 1][..i] == savedRows[..i];
        LoadLast(old(users), savedRows[..i + 1]);
        i := i + 1;
      }
      assert savedRows[..i] == savedRows;
    }

    /** `save_to_csv`: the file is rewritten with one row per record. */
    method SaveToCsv()
      modifies this`savedRows
      ensures Synced()
    {
      savedRows := Rows(users);
    }

    /** `register_user`: `users[username] = []` and the user is logged in. */
    method RegisterUser(username: string)
      requires Valid()
      modifies this
      ensures Valid()
      ensures users == Assign(old(users), username, []) && currentUser == Some(username)
      ensures savedRows == old(savedRows)
    {
      AssignValid(users, currentUser, username, []);
      users := Assign(users, username, []);
      currentUser := Some(username);
    }

    /**
     * `login_or_register`: a known name logs in; an unknown one is
     * registered when `confirm` (the answer to the question) is yes, and
     * otherwise nothing happens.
     */
    method LoginOrRegister(username: string, confirm: bool) returns (outcome: LoginOutcome)
      requires Valid()
      modifies this
      ensures Valid() && savedRows == old(savedRows)
      ensures Has(old(users), username) ==>
        outcome == LoggedIn && users == old(users) && currentUser == Some(username)
      ensures !Has(old(users), username) && confirm ==>
        outcome == Registered && users == old(users) + [Entry(username, [])] && currentUser == Some(username)
      ensures !Has(old(users), username) && !confirm ==>
        outcome == Declined && users == old(users) && currentUser == old(currentUser)
    {
      if Has(users, username) {
        currentUser := Some(username);
        outcome := LoggedIn;
      } else if confirm {
        AssignNew(users, username, []);
        RegisterUser(username);
        outcome := Registered;
      } else {
        outcome := Declined;
      }
    }

    /**
     * `add_medicine`: with every field filled in, the record is appended to
     * the current user's list and then scheduled from `now`; the file is
     * rewritten only when `calculate_next_dose` succeeds.
     */
    method AddMedicine(name: string, dosage: string, frequency: string, now: int) returns (outcome: AddOutcome)
      requires Valid() && currentUser.Some?
      modifies this`users, this`savedRows
      ensures Valid() && currentUser == old(currentUser)
      ensures name == [] || dosage == [] || frequency == [] ==>
        outcome == MissingFields && users == old(users) && savedRows == old(savedRows)
      ensures name != [] && dosage != [] && frequency != [] ==>
        var cur, rec := old(currentUser).value, Medicine(name, dosage, frequency, None);
        var next := CalculateNextDose(rec, now);
        && outcome == (if next.Some? then Added else InvalidFrequency)
        && users == Assign(old(users), cur, Get(old(users), cur) + [if next.Some? then next.value else rec])
        && (if next.Some? then Synced() else savedRows == old(savedRows))
    {
      if name != [] && dosage != [] && frequency != [] {
        var added := AddRecord(Medicine(name, dosage, frequency, None), now);
        outcome := if added then Added else InvalidFrequency;
      } else {
        outcome := MissingFields;
      }
    }

    /**
     * The filled-in case of `add_medicine`: append the record, schedule it,
     * and rewrite the file when `calculate_next_dose` succeeds.
     */
    method AddRecord(rec: Medicine, now: int) returns (scheduled: bool)
      requires Valid() && currentUser.Some? && rec.nextDose == None
      modifies this`users, this`savedRows
      ensures Valid() && currentUser == old(currentUser)
      ensures var cur, next := old(currentUser).value, CalculateNextDose(rec, now);
        && scheduled == next.Some?
        && users == Assign(old(users), cur, Get(old(users), cur) + [if next.Some? then next.value else rec])
        && (if next.Some? then Synced() else savedRows == old(savedRows))
    {
      var cur := currentUser.value;
      ghost var before, meds := users, Get(users, cur);
      AppendRecord(cur, rec);
      assert Get(users, cur) == meds + [rec];
      scheduled := ScheduleLast(now);
      if scheduled {
        ghost var x := CalculateNextDose(rec, now).value;
        assert users == Assign(before, cur, meds + [x]) by {
          assert (meds + [rec])[|meds| := x] == meds + [x];
          AssignTwice(before, cur, meds + [rec], meds + [x]);
        }
        SaveToCsv();
      }
    }

    /**
     * `calculate_next_dose(self.users[self.current_user][-1])`: the record
     * just added gets its due time from `now`, or the call fails and nothing
     * changes.
     */
    method ScheduleLast(now: int) returns (scheduled: bool)
      requires Valid() && currentUser.Some? && CurrentMeds(users, currentUser) != []
      modifies this`users
      ensures Valid()
      ensures var meds := Get(old(users), old(currentUser).value);
        var next := CalculateNextDose(meds[|meds| - 1], now);
        && scheduled == next.Some?
        && users == if next.Some? then Assign(old(users), old(currentUser).value, meds[|meds| - 1 := next.value]) else old(users)
    {
      var cur := currentUser.value;
      var meds := Get(users, cur);
      var next := CalculateNextDose(meds[|meds| - 1], now);
      scheduled := next.Some?;
      if scheduled {
        AssignValid(users, currentUser, cur, meds[|meds| - 1 := next.value]);
        users := Assign(users, cur, meds[|meds| - 1 := next.value]);
      }
    }

    /**
     * One pass of `check_medicines_schedule` at time `now`: every due record
     * of the current user is announced and rescheduled, in list order.
     */
    method Tick(now: int) returns (reminders: seq<string>)
      requires Valid()
      requires forall m :: m in CurrentMeds(users, currentUser) ==> m.nextDose.Some?
      modifies this`users
      ensures Valid()
      ensures forall m :: m in CurrentMeds(old(users), old(currentUser)) ==> Schedulable(m)
      ensures users == TickUsers(old(users), old(currentUser), now)
      ensures reminders == DueNames(CurrentMeds(old(users), old(currentUser)), now)
    {
      assert currentUser.Some? ==> forall m :: m in Get(users, currentUser.value) ==> Consistent(m);
      var meds;
      meds, reminders := TickList(CurrentMeds(users, currentUser), now);
      if currentUser.Some? && Has(users, currentUser.value) {
        assert forall m :: m in meds ==> Schedulable(m) by {
          forall m | m in meds ensures Schedulable(m) {
            var k :| 0 <= k < |meds| && meds[k] == m;
          }
        }
        AssignValid(users, currentUser, currentUser.value, meds);
        users := Assign(users, currentUser.value, meds);
      }
    }

    /** `users[current_user].remove(med)` for the record at `j`, then `save_to_csv`. */
    method RemoveAt(j: nat)
      requires Valid() && currentUser.Some? && j < |CurrentMeds(users, currentUser)|
      modifies this`users, this`savedRows
      ensures Valid() && currentUser == old(currentUser)
      ensures var cur, meds := old(currentUser).value, Get(old(users), old(currentUser).value);
        users == Assign(old(users), cur, meds[..j] + meds[j + 1..])
      ensures Synced()
    {
      var cur := currentUser.value;
      var meds := Get(users, cur);
      assert forall m :: m in meds[..j] + meds[j + 1..] ==> m in meds;
      AssignValid(users, currentUser, cur, meds[..j] + meds[j + 1..]);
      users := Assign(users, cur, meds[..j] + meds[j + 1..]);
      SaveToCsv();
    }

    /**
     * The inner loop of `delete_medicine` for one selected name: the first
     * record of the current user with that name is removed and the file
     * rewritten; without such a record nothing happens.
     */
    method DeleteFirst(name: string) returns (found: bool)
      requires Valid() && currentUser.Some?
      modifies this`users, this`savedRows
      ensures Valid() && currentUser == old(currentUser)
      ensures var meds := Get(old(users), old(currentUser).value);
        && (found <==> FindName(meds, name) < |meds|)
        && users == Assign(old(users), old(currentUser).value, RemoveFirst(meds, name))
      ensures found ==> Synced() && |CurrentMeds(users, currentUser)| == |CurrentMeds(old(users), currentUser)| - 1
      ensures !found ==> users == old(users) && savedRows == old(savedRows)
    {
      var cur := currentUser.value;
      var meds := Get(users, cur);
      var j := FindFirst(meds, name);
      found := j < |meds|;
      if found {
        assert meds[..j] + meds[j + 1..] == RemoveFirst(meds, name);
        RemoveAt(j);
      } else {
        AssignGet(users, cur);
      }
    }

    /**
     * `delete_medicine` with the names selected in the table: nothing
     * selected is a warning. Otherwise names without a record are passed
     * over, and the first name with one removes its first record and
     * rewrites the file. The redraw that follows deletes the table's items,
     * so reading the next selected row fails and the handler stops.
     * (`list.remove` drops the first element equal to the record found,
     * which is that record itself: every earlier record has another name.)
     */
    method DeleteMedicine(selection: seq<string>) returns (outcome: DeleteOutcome)
      requires Valid()
      modifies this`users, this`savedRows
      ensures Valid() && currentUser == old(currentUser)
      ensures users == DeleteSelected(old(users), old(currentUser), selection)
      ensures var i := FirstMatch(CurrentMeds(old(users), old(currentUser)), selection);
        && (outcome == NothingSelected <==> selection == [])
        && (outcome == StaleRow <==> i + 1 < |selection|)
        && (if i < |selection| then Synced() else savedRows == old(savedRows))
    {
      if selection == [] {
        outcome := NothingSelected;
      } else if currentUser.None? {
        outcome := Done;
      } else {
        var stale := DeleteEach(selection);
        outcome := if stale then StaleRow else Done;
      }
    }

    /**
     * The `for item in selected_item` loop of `delete_medicine`, for a
     * logged-in user. It ends after the first removal; `stale` says that
     * selected rows remained, so that the next lookup fails.
     */
    method DeleteEach(selection: seq<string>) returns (stale: bool)
      requires Valid() && currentUser.Some?
      modifies this`users, this`savedRows
      ensures Valid() && currentUser == old(currentUser)
      ensures users == DeleteSelected(old(users), old(currentUser), selection)
      ensures var i := FirstMatch(CurrentMeds(old(users), old(currentUser)), selection);
        && (stale <==> i + 1 < |selection|)
        && (if i < |selection| then Synced() else savedRows == old(savedRows))
    {
      var cur := currentUser.value;
      ghost var meds := Get(users, cur);
      stale := false;
      var s := 0;
      while s < |selection|
        invariant 0 <= s <= |selection|
        invariant Valid() && currentUser == old(currentUser)
        invariant users == old(users) && savedRows == old(savedRows)
        invariant forall k :: 0 <= k < s ==> FindName(meds, selection[k]) == |meds|
      {
        var found := DeleteFirst(selection[s]);
        if found {
          DeleteSelectedAt(old(users), cur, selection, s);
          stale := s + 1 < |selection|;
          return;
        }
        s := s + 1;
      }
      DeleteSelectedAt(old(users), cur, selection, s);
    }
  }
}
