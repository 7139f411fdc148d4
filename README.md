# Medicine Dose Tracker — a verified model of its record store and reminder loop

The tracker is a small desktop program (`medicine.py`, class `MedicineApp`).
Users log in by name. Each user keeps an ordered list of medicines
(name, dosage, frequency in minutes). A background loop reminds the
logged-in user of every medicine whose next dose is due. All records are
written to `medicine_data.csv`, one row per medicine.

This project models that program without its widgets:

- `records.dfy` (`Records`): the store. It is an association list of
  `(user, medicines)` entries in creation order, because a Python dict
  keeps insertion order and saving follows that order. It also holds the
  dict operations the program uses (`users.get(u, [])`, `users[u] = v`),
  the table that `display_medicines` fills, and delete-first-match-by-name.
- `scheduler.dfy` (`Scheduler`): `calculate_next_dose` and one pass
  ("tick") of the `check_medicines_schedule` loop at a given instant
  `now`. It also covers runs of ticks one minute apart.
- `persistence.dfy` (`Persistence`): the rows `save_to_csv` writes and the
  grouping `load_user_data` performs, with the save/load round trip.
- `numerals.dfy` (`Numerals`): Python's `int()` on the frequency text,
  and `str()` as its partner.
- `app.dfy` (`App`): the class `MedicineApp`. Its fields are `users`,
  `currentUser` and `savedRows` (the file's rows). Each handler is a
  method. The user's input and the clock are parameters:
  - the typed username and the answer to the registration question;
  - the form fields;
  - the names selected in the table;
  - `now`.

  The reminder pop-ups are the names a tick returns.

The class invariant `Valid()` holds after every method. It says:
- each user has one entry;
- the logged-in user is in the store;
- every record that has a due time has a frequency `calculate_next_dose`
  accepts: it parses, and its seconds fit a `float`. A due time is only
  ever set by a successful call, and the frequency is never edited.

Several behaviours of the code are kept as written:
- `frequency` stays text and is parsed on every use. Zero and negative
  values parse.
- A record added with a non-integer frequency is appended before the
  parse fails. It stays in the list without a due time, and the file is
  not rewritten. The same happens when the frequency parses but 60 times
  it is too large for a `float`: adding it to `time.time()` raises
  `OverflowError` (medicine.py:162, `HugeFrequencyFails`).
- Records loaded from the file have no due time.
- A tick requires every record of the current user to have a due time.
  The source raises `KeyError` otherwise.
- Delete removes only the first record with the selected name, and only
  for the first selected name that has a record. After that removal
  `display_medicines` (medicine.py:182) deletes every table item, so the
  next selected row can no longer be read (medicine.py:177) and tkinter
  raises: with two rows selected, only the first record goes
  (`TwoSelectedRemoveOne`, outcome `StaleRow`).

Four behaviours of the code are worth stating on their own:
- The code accepts any integer frequency, zero and negative included. A
  due record with such a frequency stays due at every tick
  (`NonPositiveFrequencyStaysDue`).
- A selected name with no matching record changes nothing and shows
  nothing; the only warning is for an empty selection (`DeleteFirst`,
  `DeleteMedicine`).
- A user without records is never written to the file, so a reload loses
  them (`SaveLoadRoundTrip`, `Stored`).
- Records read from the file have no due time, so a reminder pass over a
  user who has them raises `KeyError` at medicine.py:150
  (`LoadedUserCannotTick`). After a restart, saved medicines never remind.

## Model

| member | source | states |
|---|---|---|
| `Numerals.ParseIntToString` | medicine.py:161 | `int(str(n)) == n` for every integer of at most 4300 digits (Python's default limit, beyond which `str()` and `int()` both refuse): the frequency parse reads back any such decimal numeral |
| `Numerals.ParseIntTooLong` | medicine.py:161 | a numeral of more than 4300 digits is refused by `int()` whatever its value |
| `Numerals.ParseIntPadded` | medicine.py:161 | `int()` ignores any white space before and after the frequency text: a text padded on both sides parses as the bare one |
| `Numerals.ParseIntRejects` | medicine.py:161 | empty text, a decimal fraction and a word are not integers: `int()` fails on them |
| `Scheduler.CalculateNextDose` | medicine.py:160-162 | a result exists exactly when the frequency parses and 60 times it fits a `float`; then the due time is `now + 60 * minutes` and name, dosage and frequency are unchanged |
| `Scheduler.HugeFrequencyFails` | medicine.py:161-162 | a frequency that `int()` accepts but whose seconds reach `2**1024 - 2**970` makes the call fail: the `OverflowError` of the sum |
| `Scheduler.NextDoseAdvances` | medicine.py:160-162 | the new due time is strictly after `now` if and only if the frequency is positive |
| `Scheduler.DueStaysDue` | medicine.py:150 | a record is due from its due time on, and stays due at every later instant until a tick reschedules it |
| `Scheduler.TickOne` | medicine.py:150-152 | a due record gets due time `now + 60 * minutes`; a record that is not due is returned unchanged; the displayed fields never change |
| `Scheduler.TickMeds` | medicine.py:149-152 | the list keeps its length and order, and each position is ticked on its own |
| `Scheduler.DueNames` | medicine.py:149-151 | no reminder at all if and only if no record is due; every reminder names a due record |
| `Scheduler.DueNamesConcat` | medicine.py:149-151 | reminders come in list order: the reminders of `a + b` are those of `a` followed by those of `b` |
| `Scheduler.DueNamesPrefix` | medicine.py:149-151 | one more record of the list adds its reminder, when it is due, after those of the records before it |
| `Scheduler.DueNamesSingle` | medicine.py:150-151 | a record produces exactly one reminder (its name) when due and none otherwise |
| `Scheduler.TickUsers` | medicine.py:148-152 | user order and every other user's list are unchanged; the current user's list is ticked; with no current user, or one not in the store, nothing changes |
| `Scheduler.TickClearsDue` | medicine.py:148-152 | with positive frequencies every record is due strictly after `now` after a tick, so a second tick at the same instant reminds of nothing |
| `Scheduler.NonPositiveFrequencyStaysDue` | medicine.py:150-152 | with frequency zero or negative, a due record is still due at every later tick |
| `Scheduler.TickKeepsListing` | medicine.py:148-152 | a tick changes none of the displayed columns of the current user's records |
| `Scheduler.Replay` | medicine.py:147-153 | a run of `n` ticks over one record reminds at most `n` times and keeps its name and frequency |
| `Scheduler.Cadence` | medicine.py:147-153 | a record with frequency `f > 0`, ticked once a minute for `n` minutes from its add time, reminds `c` times with `c * f <= n < c * f + f`, and is next due `(c + 1) * f` minutes after the add |
| `Scheduler.AspirinScenario` | medicine.py:148-162 | Aspirin every 1 minute, added at `now`, is due at `now + 60`; a tick at `now + 61` reminds of it once and makes it due at `now + 121` |
| `Scheduler.TwoMedicineScenario` | medicine.py:147-153 | frequencies 1 and 5 added together, ticked once a minute for five minutes, remind 5 times and once |
| `Records.HasKeys` | medicine.py:37 | `u in users` holds exactly when `u` is one of the store's keys |
| `Records.CurrentMeds` | medicine.py:149 | `users.get(current_user, [])`: the current user's own entry when the store holds it, and the empty list when there is no current user or no entry |
| `Records.Get` | medicine.py:149 | `users.get(u, [])` is empty for a user the store does not hold |
| `Records.Assign` | medicine.py:38 | `users[u] = v`: `u` then maps to `v`, every other user is unchanged, and an existing key keeps its place |
| `Records.AssignNew` | medicine.py:72 | a new key goes at the end of the store (dict insertion order) |
| `Records.Columns` | medicine.py:166-168 | one table row per record of the current user, in order, holding its name, dosage and frequency |
| `Records.FindName` | medicine.py:178-179 | the index found holds the name, and no earlier record does |
| `Records.RemoveFirst` | medicine.py:178-183 | the list shrinks by one when the name is present (the first match is dropped, everything else keeps its order) and is unchanged when absent |
| `Records.RemoveFirstMultiset` | medicine.py:180 | the removal takes out exactly the matched record |
| `Records.FirstMatch` | medicine.py:176-183 | the position of the first selected name that has a record; every earlier name has none |
| `Records.DeleteSelected` | medicine.py:170-183 | user order and other users are unchanged; the current user's list loses the first record of the first selected name that has one, and nothing else |
| `Records.DeleteSelectedAt` | medicine.py:176-183 | knowing where the first selected name with a record is fixes the store after the delete |
| `Records.DeleteSelectedRemovesOne` | medicine.py:176-183 | a delete removes at most one record, only one that was there, and removes one exactly when some selected name has a record |
| `Records.TwoSelectedRemoveOne` | medicine.py:176-183 | with the rows of two records with different names selected, only the first record is removed |
| `Persistence.RowOf` | medicine.py:139 | a record is written as four columns starting with its user; reading the row back gives the record without its due time |
| `Persistence.RecordOf` | medicine.py:36 | a row becomes a record with the row's name, dosage and frequency and no due time |
| `Persistence.UserRows` | medicine.py:138-139 | one `[user, name, dosage, frequency]` row per record of a user, in list order |
| `Persistence.Rows` | medicine.py:137-139 | as many rows as records, four columns each; with `RowsConcat` and `RowsSingle`, the rows are the users' blocks in store order |
| `Persistence.RowsConcat` | medicine.py:137-139 | the rows of `a + b` are the rows of `a` followed by the rows of `b` |
| `Persistence.RowsSingle` | medicine.py:138-139 | the rows of a one-user store are that user's block of rows |
| `Persistence.InsertRow` | medicine.py:35-39 | a row of a known user keeps the user order; a row of a new user adds that user at the end with the row's record |
| `Persistence.Load` | medicine.py:34-39 | loading keeps the users already in the store in their order and only adds users after them |
| `Persistence.InsertRowGet` | medicine.py:35-39 | a row's record is appended to its user's list and to no other |
| `Persistence.LoadDistinct` | medicine.py:37-38 | loading never gives a user two entries |
| `Persistence.LoadReloaded` | medicine.py:34-39 | loading creates a user only with a record, and no record has a due time |
| `Persistence.LoadGet` | medicine.py:34-39 | each user's list gets exactly that user's rows, in row order |
| `Persistence.LoadKeys` | medicine.py:34-39 | users appear in order of their first row |
| `Persistence.LoadConcat` | medicine.py:34-39 | loading two batches of rows one after the other is loading them together |
| `Persistence.SaveLoadRoundTrip` | medicine.py:137-139 | loading the saved rows gives back the store with every due time dropped and every user without records gone |
| `Persistence.ReloadIsStable` | medicine.py:34-39 | saving what was loaded and loading it again gives the same store |
| `Persistence.LoadedUserCannotTick` | medicine.py:34-39 | a user with rows in the file gets, on load, a record without a due time |
| `App.AssignValid` | medicine.py:72 | assigning consistent records to a key keeps the store invariant |
| `App.ListingAfterAppend` | medicine.py:125 | adding a record adds exactly its row at the end of that user's table |
| `App.FindFirst` | medicine.py:178-179 | the loop finds the index of the first record with the name, or the list length |
| `App.TickRecord` | medicine.py:150-152 | one record in the loop: it is ticked, and it is announced exactly when due |
| `App.TickList` | medicine.py:149-152 | the loop gives the ticked list and the reminders of the due records, in order |
| `App.MedicineApp.constructor` | medicine.py:13-14 | an empty store and no user, then the file's rows are loaded |
| `App.MedicineApp.AppendRecord` | medicine.py:37-39 | the user is created with an empty list if new, then the record is appended to that list |
| `App.MedicineApp.LoadUserData` | medicine.py:30-41 | the store becomes the load of the file's rows, in order |
| `App.MedicineApp.SaveToCsv` | medicine.py:134-139 | the file holds exactly the rows of the store |
| `App.MedicineApp.RegisterUser` | medicine.py:71-73 | the user gets an empty list and is logged in |
| `App.MedicineApp.LoginOrRegister` | medicine.py:60-69 | a known name logs in and leaves the store unchanged; an unknown name with a yes answer adds an empty entry at the end and logs in; a no answer changes nothing |
| `App.MedicineApp.AddMedicine` | medicine.py:119-132 | an empty field changes nothing; otherwise exactly one record is appended to the current user's list; it is scheduled and the file rewritten only when `calculate_next_dose` succeeds |
| `App.MedicineApp.AddRecord` | medicine.py:124-128 | the record is appended to the current user's list and given its due time when `calculate_next_dose` succeeds; the file is rewritten exactly then |
| `App.MedicineApp.ScheduleLast` | medicine.py:126 | the last record of the current user gets its due time, or nothing changes when `calculate_next_dose` fails |
| `App.MedicineApp.Tick` | medicine.py:146-152 | the store becomes the ticked store, and the reminders are the names of the due records in list order |
| `App.MedicineApp.RemoveAt` | medicine.py:180-181 | the record at the index is removed from the current user's list and the file rewritten |
| `App.MedicineApp.DeleteFirst` | medicine.py:177-183 | the first record with the name is removed and the file rewritten, or, with no match, nothing changes |
| `App.MedicineApp.DeleteMedicine` | medicine.py:170-183 | an empty selection is a warning and changes nothing; otherwise the first selected name with a record removes its first record, the file is rewritten exactly when a record was removed, and the handler fails on a stale row exactly when selected rows remain after the removal |
| `App.MedicineApp.DeleteEach` | medicine.py:176-183 | the loop passes over names without a record and stops at the first removal; the result says whether selected rows remained |

## Left out

- Widgets, frames, the table and `messagebox` are not modelled. Dialogs
  become the outcome values `LoginOutcome` and `AddOutcome`. Reminders are
  the names `Tick` returns. The table selection is a sequence of names.
- The reminder thread, `time.sleep(60)` and the endless loop are not
  modelled. The model has a single `Tick`; `Replay` runs it for one record
  over given instants. `add_medicine` starts a new daemon thread on every
  successful add, so several loops can run at once and remind more than
  once. That concurrency is not modelled.
- `time.time()` is a float clock. It is read once per pass
  (medicine.py:148) and once more for each due record (medicine.py:162).
  The model uses one integer `now`, in seconds, for both the comparison
  and the new due time.
- `Scheduler.CalculateNextDose` does not round the due time to a `float`.
  The due time is the exact sum `now + 60 * minutes`. Only the
  `OverflowError` of that sum is modelled.
- `schedule_medicine_reminder` calls `calculate_next_dose` on a temporary
  dict (medicine.py:141-143). That has no effect on the store; only its
  thread start matters, and threads are left out.
- Opening the file, the `FileNotFoundError` case and CSV quoting are not
  modelled. The file is its list of rows. A missing file is the empty
  list of rows given to the constructor.
- `Persistence.Load` and `App.MedicineApp.LoadUserData` require every row
  to have four columns. A shorter row raises `IndexError` in the source,
  and nothing catches it.
- `Numerals.ParseInt` covers ASCII white space, an optional sign and
  ASCII digits. It leaves out the rest of Python's `int()`: underscores
  between digits, non-ASCII digits and Unicode white space. Its limit of
  4300 digits (`MaxStrDigits`) is Python's default. A program can change
  it with `sys.set_int_max_str_digits`, and the model keeps the default.
- `App.MedicineApp.AddMedicine` requires a logged-in user. The add form
  exists only after login. Without a user, `users[None]` raises `KeyError`.
- `App.MedicineApp.Tick` requires every record of the current user to have
  a due time. The source raises `KeyError` otherwise. The invariant
  guarantees that `calculate_next_dose` succeeds on such a record, so the
  `ValueError` and `OverflowError` paths of the loop cannot happen. Records loaded from the file have no due
  time (`LoadedUserCannotTick`), so for a user with saved records the
  source's pass raises, and the model's `Tick` cannot be called.
- Deleting reads the selected names back from the table. tkinter may
  convert a displayed value to a number, and then it never matches a
  name. The model takes the selected names exactly as stored.
- Clearing the form (`clear_med_entries`) is not modelled; it is UI only.
  The redraw after a delete is modelled only by its effect on the loop:
  the table's items are gone, so the next selected row cannot be read and
  the handler stops (outcome `StaleRow`). The new table contents are
  `Records.Listing` of the new store.
