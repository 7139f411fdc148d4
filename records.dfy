/**
 * The record store of the tracker: for each user, in order of creation, an
 * ordered list of medicine records. A Python dict keeps its keys in
 * insertion order, so the store is an association list whose keys are
 * kept distinct.
 */
module Records {
  import opened Wrappers

  /**
   * One medicine record. `frequency` is kept as the text the user typed;
   * `nextDose` is the due time in seconds, absent until it is first computed.
   */
  datatype Medicine = Medicine(name: string, dosage: string, frequency: string, nextDose: Option<int>)

  /** A user and that user's medicines, in the order they were added. */
  datatype Entry = Entry(user: string, meds: seq<Medicine>)

  type Users = seq<Entry>

  /** The user names of the store, in order. */
  function Keys(us: Users): (ks: seq<string>)
    ensures |ks| == |us|
    ensures forall i :: 0 <= i < |us| ==> ks[i] == us[i].user
  {
    if us == [] then [] else [us[0].user] + Keys(us[1..])
  }

  /** `u in users`. */
  predicate Has(us: Users, u: string) {
    us != [] && (us[0].user == u || Has(us[1..], u))
  }

  /** A user is in the store exactly when it is one of its keys. */
  lemma {:induction false} HasKeys(us: Users, u: string)
    ensures Has(us, u) <==> u in Keys(us)
  {
    if us != [] {
      HasKeys(us[1..], u);
      assert Keys(us) == [us[0].user] + Keys(us[1..]);
    }
  }

  predicate DistinctKeys(us: Users) {
    forall i, j :: 0 <= i < j < |us| ==> us[i].user != us[j].user
  }

  /** `users.get(u, [])`. */
  function Get(us: Users, u: string): (meds: seq<Medicine>)
    ensures !Has(us, u) ==> meds == []
  {
    if us == [] then []
    else if us[0].user == u then us[0].meds
    else Get(us[1..], u)
  }

  /** A key's list is the list of the key's entry. */
  lemma {:induction false} GetEntry(us: Users, u: string)
    requires Has(us, u)
    ensures Entry(u, Get(us, u)) in us
  {
    if us[0].user != u {
      assert Has(us[1..], u);
      GetEntry(us[1..], u);
    }
  }

  /** `users.get(current_user, [])`, where no user at all is Python's `None`. */
  function CurrentMeds(us: Users, cur: Option<string>): (meds: seq<Medicine>)
    ensures cur.Some? && Has(us, cur.value) ==> Entry(cur.value, meds) in us
    ensures cur.None? || !Has(us, cur.value) ==> meds == []
  {
    if cur.None? then []
    else if Has(us, cur.value) then (GetEntry(us, cur.value); Get(us, cur.value))
    else []
  }

  /**
   * `users[u] = v`: an existing key keeps its place and gets the new list;
   * a new key goes at the end.
   */
  function Assign(us: Users, u: string, v: seq<Medicine>): (r: Users)
    ensures Has(r, u) && Get(r, u) == v
    ensures forall w :: w != u ==> Get(r, w) == Get(us, w)
    ensures Has(us, u) ==> Keys(r) == Keys(us)
  {
    if us == [] then [Entry(u, v)]
    else if us[0].user == u then [Entry(u, v)] + us[1..]
    else [us[0]] + Assign(us[1..], u, v)
  }

  /** A key the store does not hold yet is added at the end. */
  lemma {:induction false} AssignNew(us: Users, u: string, v: seq<Medicine>)
    requires !Has(us, u)
    ensures Assign(us, u, v) == us + [Entry(u, v)]
  {
    if us != [] {
      assert Keys(us) == [us[0].user] + Keys(us[1..]);
      AssignNew(us[1..], u, v);
      assert us == [us[0]] + us[1..];
    }
  }

  /** An assignment adds one entry, the assigned one, and keeps the others. */
  lemma {:induction false} AssignEntries(us: Users, u: string, v: seq<Medicine>)
    ensures forall e :: e in Assign(us, u, v) ==> e in us || e == Entry(u, v)
  {
    if us != [] && us[0].user != u {
      AssignEntries(us[1..], u, v);
    }
  }

  /** A key held only by the last entry: its list is that entry's, and assigning replaces it there. */
  lemma LastKey(us: Users, u: string, x: seq<Medicine>, y: seq<Medicine>)
    requires !Has(us, u)
    ensures Get(us + [Entry(u, x)], u) == x
    ensures Assign(us + [Entry(u, x)], u, y) == us + [Entry(u, y)]
  {
    AssignNew(us, u, x);
    AssignTwice(us, u, x, y);
    AssignNew(us, u, y);
  }

  /** Assigning to a key never creates a second entry for it. */
  lemma AssignDistinct(us: Users, u: string, v: seq<Medicine>)
    requires DistinctKeys(us)
    ensures DistinctKeys(Assign(us, u, v))
  {
    var r := Assign(us, u, v);
    if Has(us, u) {
      forall i, j | 0 <= i < j < |r| ensures r[i].user != r[j].user {
        assert Keys(r)[i] == Keys(us)[i] && Keys(r)[j] == Keys(us)[j];
      }
    } else {
      HasKeys(us, u);
      AssignNew(us, u, v);
      forall i | 0 <= i < |us| ensures us[i].user != u {
        assert Keys(us)[i] == us[i].user;
      }
    }
  }

  /** Writing back the list a key already holds changes nothing. */
  lemma {:induction false} AssignGet(us: Users, u: string)
    requires Has(us, u)
    ensures Assign(us, u, Get(us, u)) == us
  {
    if us[0].user != u {
      assert Has(us[1..], u);
      AssignGet(us[1..], u);
    }
  }

  /** A second assignment to the same key overrides the first. */
  lemma {:induction false} AssignTwice(us: Users, u: string, v: seq<Medicine>, w: seq<Medicine>)
    ensures Assign(Assign(us, u, v), u, w) == Assign(us, u, w)
  {
    if us != [] && us[0].user != u {
      AssignTwice(us[1..], u, v, w);
    }
  }

  /** The name, dosage and frequency columns of each record, in list order. */
  function Columns(meds: seq<Medicine>): (rows: seq<(string, string, string)>)
    ensures |rows| == |meds|
    ensures forall k :: 0 <= k < |meds| ==> rows[k] == (meds[k].name, meds[k].dosage, meds[k].frequency)
  {
    if meds == [] then []
    else
      var last := meds[|meds| - 1];
      Columns(meds[..|meds| - 1]) + [(last.name, last.dosage, last.frequency)]
  }

  /** The table `display_medicines` fills: the columns of the current user's records. */
  function Listing(us: Users, cur: Option<string>): seq<(string, string, string)> {
    Columns(CurrentMeds(us, cur))
  }

  /** The index of the first record named `name`, or `|meds|` when there is none. */
  function FindName(meds: seq<Medicine>, name: string): (i: nat)
    ensures i <= |meds|
    ensures i < |meds| ==> meds[i].name == name
    ensures forall k :: 0 <= k < i ==> meds[k].name != name
  {
    if meds == [] then 0
    else if meds[0].name == name then 0
    else 1 + FindName(meds[1..], name)
  }

  /** `list.remove` of the first record named `name`, if there is one. */
  function RemoveFirst(meds: seq<Medicine>, name: string): (r: seq<Medicine>)
    ensures var i := FindName(meds, name);
      (i < |meds| ==> |r| == |meds| - 1) && (i == |meds| ==> r == meds)
    ensures forall k :: 0 <= k < |r| ==>
      r[k] == if k < FindName(meds, name) then meds[k] else meds[k + 1]
  {
    var i := FindName(meds, name);
    if i < |meds| then meds[..i] + meds[i + 1..] else meds
  }

  /** A removal takes out exactly the matched record and keeps every other one. */
  lemma RemoveFirstMultiset(meds: seq<Medicine>, name: string)
    requires FindName(meds, name) < |meds|
    ensures multiset(RemoveFirst(meds, name)) + multiset{meds[FindName(meds, name)]} == multiset(meds)
  {
    var i := FindName(meds, name);
    var front, back := meds[..i], meds[i + 1..];
    assert RemoveFirst(meds, name) == front + back;
    assert meds == front + [meds[i]] + back;
    calc {
      multiset(meds);
      multiset(front + [meds[i]]) + multiset(back);
      multiset(front) + multiset{meds[i]} + multiset(back);
      multiset(front + back) + multiset{meds[i]};
    }
  }

  /**
   * The position in the selection of the first name that has a record, or
   * `|names|` when none has. Names without a record are passed over.
   */
  function FirstMatch(meds: seq<Medicine>, names: seq<string>): (i: nat)
    ensures i <= |names|
    ensures i < |names| ==> FindName(meds, names[i]) < |meds|
    ensures forall k :: 0 <= k < i ==> FindName(meds, names[k]) == |meds|
  {
    if names == [] then 0
    else if FindName(meds, names[0]) < |meds| then 0
    else 1 + FirstMatch(meds, names[1..])
  }

  /**
   * `delete_medicine` on the store. The first selected name that has a
   * record of the current user removes the first such record. The redraw
   * after that removal deletes the table's items, so the loop ends there:
   * later names remove nothing. Other users are not touched.
   */
  function DeleteSelected(us: Users, cur: Option<string>, names: seq<string>): (r: Users)
    ensures Keys(r) == Keys(us)
    ensures forall w :: Some(w) != cur ==> Get(r, w) == Get(us, w)
    ensures var meds := CurrentMeds(us, cur);
      var i := FirstMatch(meds, names);
      CurrentMeds(r, cur) == if i < |names| then RemoveFirst(meds, names[i]) else meds
  {
    var meds := CurrentMeds(us, cur);
    var i := FirstMatch(meds, names);
    if i < |names| then Assign(us, cur.value, RemoveFirst(meds, names[i])) else us
  }

  /** What a delete leaves, given the position of the first selected name with a record. */
  lemma DeleteSelectedAt(us: Users, cur: string, names: seq<string>, j: nat)
    requires Has(us, cur) && j <= |names|
    requires j < |names| ==> FindName(Get(us, cur), names[j]) < |Get(us, cur)|
    requires forall k :: 0 <= k < j ==> FindName(Get(us, cur), names[k]) == |Get(us, cur)|
    ensures FirstMatch(CurrentMeds(us, Some(cur)), names) == j
    ensures DeleteSelected(us, Some(cur), names) ==
      if j < |names| then Assign(us, cur, RemoveFirst(Get(us, cur), names[j])) else us
  {
  }

  /** A delete takes out at most one record, and only one that was there. */
  lemma DeleteSelectedRemovesOne(us: Users, cur: Option<string>, names: seq<string>)
    ensures var before := CurrentMeds(us, cur);
      var after := CurrentMeds(DeleteSelected(us, cur, names), cur);
      && multiset(after) <= multiset(before)
      && |before| - 1 <= |after| <= |before|
      && (|after| == |before| <==> FirstMatch(before, names) == |names|)
  {
    var meds := CurrentMeds(us, cur);
    var i := FirstMatch(meds, names);
    if i < |names| {
      RemoveFirstMultiset(meds, names[i]);
    }
  }

  /** Selecting the rows of two records with different names removes only the first record. */
  lemma TwoSelectedRemoveOne(u: string, a: Medicine, b: Medicine)
    requires a.name != b.name
    ensures DeleteSelected([Entry(u, [a, b])], Some(u), [a.name, b.name]) == [Entry(u, [b])]
  {
    var us := [Entry(u, [a, b])];
    assert FindName([a, b], a.name) == 0;
    assert FirstMatch([a, b], [a.name, b.name]) == 0;
    assert RemoveFirst([a, b], a.name) == [b];
    assert Assign(us, u, [b]) == [Entry(u, [b])];
  }
}
