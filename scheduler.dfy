/**
 * Dose scheduling: the next due time of a record, and one pass of the
 * reminder loop ("tick") over the current user's records at one instant.
 * Wall-clock time is the parameter `now`, in whole seconds; the reminder
 * pop-ups are the returned sequence of medicine names.
 */
module Scheduler {
  import opened Wrappers
  import opened Numerals
  import opened Records

  const SecondsPerMinute: int := 60

  /**
   * `2**1024 - 2**970`: the smallest magnitude of an `int` that Python
   * cannot convert to a `float`; it rounds past the largest finite double
   * and the conversion raises `OverflowError`.
   */
  const FloatOverflow: int := 0xFFFF_FFFF_FFFF_FC00000000000000000000000000000000000000000000000000000000000000000000000000000000000000000000000000000000000000000000000000000000000000000000000000000000000000000000000000000000000000000000000000000000000000000000000000000000000000000000000000

  /** An integer Python can add to a `float`. */
  predicate InFloatRange(x: int) {
    -FloatOverflow < x < FloatOverflow
  }

  /**
   * `calculate_next_dose` succeeds on the record: `int()` accepts its
   * frequency, and the seconds it stands for can be added to `time.time()`.
   */
  predicate Computable(m: Medicine) {
    ParseInt(m.frequency).Some? && InFloatRange(ParseInt(m.frequency).value * SecondsPerMinute)
  }

  /**
   * `calculate_next_dose`: the frequency text is parsed as whole minutes and
   * the record becomes due that many minutes after `now`. `None` is the
   * `ValueError` raised when the text is not an integer, or the
   * `OverflowError` raised when the seconds are too large for a `float`.
   */
  function CalculateNextDose(m: Medicine, now: int): (r: Option<Medicine>)
    ensures r.Some? <==> Computable(m)
    ensures r.Some? ==>
      && r.value.name == m.name && r.value.dosage == m.dosage && r.value.frequency == m.frequency
      && r.value.nextDose == Some(now + SecondsPerMinute * ParseInt(m.frequency).value)
  {
    match ParseInt(m.frequency)
    case None => None
    case Some(minutes) =>
      if InFloatRange(minutes * SecondsPerMinute) then Some(m.(nextDose := Some(now + minutes * SecondsPerMinute)))
      else None
  }

  /** A positive frequency moves the due time into the future; any other leaves it at or before `now`. */
  lemma NextDoseAdvances(m: Medicine, now: int)
    requires Computable(m)
    ensures ParseInt(m.frequency).value > 0 <==> CalculateNextDose(m, now).value.nextDose.value > now
  {
  }

  /** `now >= med['next_dose']`; a record without a due time is never due. */
  predicate Due(m: Medicine, now: int) {
    m.nextDose.Some? && now >= m.nextDose.value
  }

  /** Once its due time has come, a record stays due until a tick reschedules it. */
  lemma DueStaysDue(m: Medicine, now: int, later: int)
    requires Due(m, now) && now <= later
    ensures Due(m, later) && later >= m.nextDose.value
  {
  }

  /** A record the reminder loop can process: it has a due time and `calculate_next_dose` succeeds on it. */
  predicate Schedulable(m: Medicine) {
    m.nextDose.Some? && Computable(m)
  }

  /**
   * A due time is only ever set by a successful `calculate_next_dose`, so
   * a record that has one has a frequency it accepts.
   */
  predicate Consistent(m: Medicine) {
    m.nextDose.Some? ==> Computable(m)
  }

  /**
   * A frequency whose seconds do not fit a `float` makes
   * `calculate_next_dose` fail, although `int()` accepts it.
   */
  lemma HugeFrequencyFails(m: Medicine, now: int, minutes: int)
    requires m.frequency == IntToString(minutes) && minutes * SecondsPerMinute >= FloatOverflow
    requires |NatToString(minutes)| <= MaxStrDigits
    ensures ParseInt(m.frequency) == Some(minutes)
    ensures CalculateNextDose(m, now) == None
  {
    ParseIntToString(minutes);
  }

  /** One record at one tick: rescheduled from `now` when due, untouched otherwise. */
  function TickOne(m: Medicine, now: int): (r: Medicine)
    requires Schedulable(m)
    ensures Schedulable(r)
    ensures r.name == m.name && r.dosage == m.dosage && r.frequency == m.frequency
    ensures Due(m, now) ==> r.nextDose == Some(now + SecondsPerMinute * ParseInt(m.frequency).value)
    ensures !Due(m, now) ==> r == m
  {
    if Due(m, now) then CalculateNextDose(m, now).value else m
  }

  /** The `for med in ...` loop of one tick, as the list it leaves behind. */
  function TickMeds(meds: seq<Medicine>, now: int): (r: seq<Medicine>)
    requires forall m :: m in meds ==> Schedulable(m)
    ensures |r| == |meds|
    ensures forall k :: 0 <= k < |meds| ==> r[k] == TickOne(meds[k], now)
  {
    if meds == [] then []
    else TickMeds(meds[..|meds| - 1], now) + [TickOne(meds[|meds| - 1], now)]
  }

  /** The reminders one tick shows: the names of the due records, in list order. */
  function DueNames(meds: seq<Medicine>, now: int): (names: seq<string>)
    ensures |names| <= |meds|
    ensures names == [] <==> forall k :: 0 <= k < |meds| ==> !Due(meds[k], now)
    ensures forall n :: n in names ==> exists k :: 0 <= k < |meds| && Due(meds[k], now) && meds[k].name == n
  {
    if meds == [] then []
    else
      var init := meds[..|meds| - 1];
      var last := meds[|meds| - 1];
      assert forall k :: 0 <= k < |init| ==> init[k] == meds[k];
      DueNames(init, now) + (if Due(last, now) then [last.name] else [])
  }

  /** The reminders of a list are those of its front part followed by those of its back part. */
  lemma {:induction false} DueNamesConcat(a: seq<Medicine>, b: seq<Medicine>, now: int)
    ensures DueNames(a + b, now) == DueNames(a, now) + DueNames(b, now)
  {
    if b == [] {
      assert a + b == a;
    } else {
      var init, last := b[..|b| - 1], b[|b| - 1];
      var tail := if Due(last, now) then [last.name] else [];
      DueNamesConcat(a, init, now);
      assert (a + b)[..|a + b| - 1] == a + init && (a + b)[|a + b| - 1] == last;
      calc {
        DueNames(a + b, now);
        DueNames(a + init, now) + tail;
        DueNames(a, now) + DueNames(init, now) + tail;
        DueNames(a, now) + (DueNames(init, now) + tail);
        DueNames(a, now) + DueNames(b, now);
      }
    }
  }

  /** One more record of the list adds its reminder, if it is due, after those of the records before it. */
  lemma DueNamesPrefix(meds: seq<Medicine>, i: nat, now: int)
    requires i < |meds|
    ensures DueNames(meds[..i + 1], now) == DueNames(meds[..i], now) + if Due(meds[i], now) then [meds[i].name] else []
  {
    assert meds[..i + 1][..i] == meds[..i];
  }

  /** A tick reminds once of each due record and of nothing else. */
  lemma DueNamesSingle(m: Medicine, now: int)
    ensures DueNames([m], now) == if Due(m, now) then [m.name] else []
  {
    assert [m][..0] == [];
  }

  /**
   * The store after one tick: the current user's records are ticked in
   * place; with no current user, or one the store does not hold, nothing
   * changes.
   */
  function TickUsers(us: Users, cur: Option<string>, now: int): (r: Users)
    requires forall m :: m in CurrentMeds(us, cur) ==> Schedulable(m)
    ensures Keys(r) == Keys(us)
    ensures forall w :: Some(w) != cur ==> Get(r, w) == Get(us, w)
    ensures CurrentMeds(r, cur) == TickMeds(CurrentMeds(us, cur), now)
    ensures cur.None? || !Has(us, cur.value) ==> r == us
  {
    if cur.Some? && Has(us, cur.value) then Assign(us, cur.value, TickMeds(Get(us, cur.value), now))
    else us
  }

  /**
   * With positive frequencies, a tick leaves every record due strictly
   * after `now`, so a second tick at the same instant shows nothing.
   */
  lemma {:induction false} TickClearsDue(meds: seq<Medicine>, now: int)
    requires forall m :: m in meds ==> Schedulable(m) && ParseInt(m.frequency).value > 0
    ensures forall m :: m in TickMeds(meds, now) ==> m.nextDose.Some? && m.nextDose.value > now
    ensures DueNames(TickMeds(meds, now), now) == []
  {
    var r := TickMeds(meds, now);
    forall k | 0 <= k < |r| ensures r[k].nextDose.value > now {
      assert meds[k] in meds;
    }
  }

  /** A record whose frequency is zero or negative, once due, stays due at every later tick. */
  lemma NonPositiveFrequencyStaysDue(m: Medicine, now: int, later: int)
    requires Schedulable(m) && ParseInt(m.frequency).value <= 0
    requires Due(m, now) && later >= now
    ensures Due(TickOne(m, later), later)
  {
  }

  /** A tick changes no column of the table the tracker shows. */
  lemma {:induction false} TickKeepsListing(us: Users, cur: Option<string>, now: int)
    requires forall m :: m in CurrentMeds(us, cur) ==> Schedulable(m)
    ensures Listing(TickUsers(us, cur, now), cur) == Listing(us, cur)
  {
    var before, after := Listing(us, cur), Listing(TickUsers(us, cur, now), cur);
    assert |after| == |before|;
    forall k | 0 <= k < |after| ensures after[k] == before[k] {
      assert CurrentMeds(us, cur)[k] in CurrentMeds(us, cur);
    }
  }

  /**
   * One record followed through a run of ticks at the given instants: the
   * record afterwards and the number of reminders it produced.
   */
  function Replay(m: Medicine, times: seq<int>): (res: (Medicine, nat))
    requires Schedulable(m)
    ensures Schedulable(res.0) && res.0.frequency == m.frequency && res.0.name == m.name
    ensures res.1 <= |times|
  {
    if times == [] then (m, 0)
    else
      var prev := Replay(m, times[..|times| - 1]);
      var now := times[|times| - 1];
      (TickOne(prev.0, now), prev.1 + if Due(prev.0, now) then 1 else 0)
  }

  /** The instants of `n` ticks one minute apart, the first one minute after `start`. */
  function Minutes(start: int, n: nat): (times: seq<int>)
    ensures |times| == n
    ensures forall k :: 0 <= k < n ==> times[k] == start + SecondsPerMinute * (k + 1)
  {
    seq(n, k requires 0 <= k < n => start + SecondsPerMinute * (k + 1))
  }

  /** One minute of the run that `Cadence` describes. */
  lemma CadenceStep(prev: Medicine, start: int, n: nat, c: nat, c': nat, f: int)
    requires Schedulable(prev) && ParseInt(prev.frequency) == Some(f) && f > 0
    requires c * f <= n - 1 < c * f + f
    requires prev.nextDose == Some(start + SecondsPerMinute * (c * f + f))
    requires c' == c + if Due(prev, start + SecondsPerMinute * n) then 1 else 0
    ensures c' * f <= n < c' * f + f
    ensures TickOne(prev, start + SecondsPerMinute * n).nextDose == Some(start + SecondsPerMinute * (c' * f + f))
  {
    if n == c * f + f {
      assert c' * f == c * f + f;
    }
  }

  /**
   * A record with frequency `f > 0` minutes, added at `start` and ticked once
   * a minute for `n == |times|` minutes, reminds `c` times where
   * `c * f <= n < c * f + f` (that is, `n / f` times), and is next due
   * `c * f + f` minutes after `start`.
   */
  lemma {:induction false} Cadence(m: Medicine, f: int, start: int, times: seq<int>)
    requires Schedulable(m) && ParseInt(m.frequency) == Some(f) && f > 0
    requires m.nextDose == Some(start + SecondsPerMinute * f)
    requires forall k :: 0 <= k < |times| ==> times[k] == start + SecondsPerMinute * (k + 1)
    ensures var res := Replay(m, times);
      && res.1 * f <= |times| < res.1 * f + f
      && res.0.nextDose == Some(start + SecondsPerMinute * (res.1 * f + f))
  {
    if times != [] {
      var n := |times|;
      Cadence(m, f, start, times[..n - 1]);
      var prev := Replay(m, times[..n - 1]);
      ReplayLast(m, times);
      var res := Replay(m, times);
      CadenceStep(prev.0, start, n, prev.1, res.1, f);
    }
  }

  /** The last tick of a run acts on the record the earlier ticks left. */
  lemma ReplayLast(m: Medicine, times: seq<int>)
    requires Schedulable(m) && times != []
    ensures var prev, now := Replay(m, times[..|times| - 1]), times[|times| - 1];
      && Replay(m, times).0 == TickOne(prev.0, now)
      && Replay(m, times).1 == prev.1 + if Due(prev.0, now) then 1 else 0
  {
  }

  /**
   * "Aspirin", 100mg, every minute, added at `now`: due one minute later; a
   * tick 61 seconds after the add reminds of it once and makes it due one
   * minute after that tick.
   */
  lemma AspirinScenario(now: int)
    ensures var added := CalculateNextDose(Medicine("Aspirin", "100mg", "1", None), now);
      && added.Some? && added.value.nextDose == Some(now + 60)
      && Schedulable(added.value)
      && DueNames([added.value], now + 61) == ["Aspirin"]
      && TickMeds([added.value], now + 61) == [added.value.(nextDose := Some(now + 61 + 60))]
  {
    assert ParseInt("1") == Some(1) by { assert Trim("1") == "1"; }
    var added := CalculateNextDose(Medicine("Aspirin", "100mg", "1", None), now).value;
    DueNamesSingle(added, now + 61);
  }

  /**
   * Two records with frequencies 1 and 5, added at the same instant and
   * ticked once a minute for five minutes: the first reminds five times,
   * the second once.
   */
  lemma TwoMedicineScenario(a: Medicine, b: Medicine, start: int)
    requires a.frequency == "1" && b.frequency == "5"
    requires a.nextDose == Some(start + 60) && b.nextDose == Some(start + 300)
    ensures Schedulable(a) && Schedulable(b)
    ensures Replay(a, Minutes(start, 5)).1 == 5 && Replay(b, Minutes(start, 5)).1 == 1
  {
    assert Schedulable(a) && Replay(a, Minutes(start, 5)).1 == 5 by {
      assert ParseInt("1") == Some(1) by { assert Trim("1") == "1"; }
      Cadence(a, 1, start, Minutes(start, 5));
    }
    assert Schedulable(b) && Replay(b, Minutes(start, 5)).1 == 1 by {
      assert ParseInt("5") == Some(5) by { assert Trim("5") == "5"; }
      Cadence(b, 5, start, Minutes(start, 5));
    }
  }
}
