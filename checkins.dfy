/**
 * The check-in table: at most one record per (habit, date), holding a
 * positive quantity, with lookup, upsert, increment and the two listings.
 */
module Checkins {
  import opened Errors
  import opened Text
  import opened Dates
  import opened Sorting
  import opened Store

  predicate IsKey(c: Checkin, habitId: string, date: string) {
    c.habitId == habitId && c.date == date
  }

  /** No two records share a (habit, date) key. */
  predicate UniqueKeys(cs: seq<Checkin>) {
    forall i, j :: 0 <= i < j < |cs| ==> !IsKey(cs[j], cs[i].habitId, cs[i].date)
  }

  /** `find_checkin_index`: the first record with the key. */
  function FindCheckin(cs: seq<Checkin>, habitId: string, date: string): (r: Option<nat>)
    ensures r.Some? ==> r.value < |cs| && IsKey(cs[r.value], habitId, date)
    ensures r.Some? ==> forall j :: 0 <= j < r.value ==> !IsKey(cs[j], habitId, date)
    ensures r.None? ==> forall j :: 0 <= j < |cs| ==> !IsKey(cs[j], habitId, date)
  {
    if cs == [] then None
    else if IsKey(cs[0], habitId, date) then Some(0)
    else
      match FindCheckin(cs[1..], habitId, date)
      case None => None
      case Some(i) => Some(i + 1)
  }

  /** The search result is determined by where the first record with the key sits. */
  lemma FindCheckinAt(cs: seq<Checkin>, habitId: string, date: string, i: nat)
    requires i < |cs| && IsKey(cs[i], habitId, date)
    requires forall j :: 0 <= j < i ==> !IsKey(cs[j], habitId, date)
    ensures FindCheckin(cs, habitId, date) == Some(i)
  {
  }

  /** `get_quantity`: the quantity recorded for the key, or 0 when there is none. */
  function GetQuantity(cs: seq<Checkin>, habitId: string, date: string): (q: U32)
    ensures (forall j :: 0 <= j < |cs| ==> !IsKey(cs[j], habitId, date)) ==> q == 0
    ensures UniqueKeys(cs) ==> forall j :: 0 <= j < |cs| && IsKey(cs[j], habitId, date) ==> q == cs[j].quantity
  {
    match FindCheckin(cs, habitId, date)
    case Some(i) => cs[i].quantity
    case None => 0
  }

  /**
   * The table after `set_quantity`: quantity 0 removes the record for the key;
   * any other quantity overwrites it in place or appends a new record.
   */
  function Upsert(cs: seq<Checkin>, habitId: string, date: string, quantity: U32): (r: seq<Checkin>)
    ensures quantity == 0 ==> |cs| - 1 <= |r| <= |cs|
    ensures quantity != 0 ==> |cs| <= |r| <= |cs| + 1
    ensures quantity != 0 ==> Checkin(habitId, date, quantity) in r
  {
    match FindCheckin(cs, habitId, date)
    case None => if quantity == 0 then cs else cs + [Checkin(habitId, date, quantity)]
    case Some(i) =>
      if quantity == 0 then cs[..i] + cs[i + 1..]
      else
        var r := cs[i := cs[i].(quantity := quantity)];
        assert r[i] == Checkin(habitId, date, quantity);
        r
  }

  /** After the upsert the key reads back the quantity that was set. */
  lemma UpsertGet(cs: seq<Checkin>, habitId: string, date: string, quantity: U32)
    requires UniqueKeys(cs)
    ensures GetQuantity(Upsert(cs, habitId, date, quantity), habitId, date) == quantity
  {
    var r := Upsert(cs, habitId, date, quantity);
    match FindCheckin(cs, habitId, date)
    case None =>
      if quantity != 0 {
        assert IsKey(r[|cs|], habitId, date);
        assert FindCheckin(r, habitId, date) == Some(|cs|);
      }
    case Some(i) =>
      if quantity == 0 {
        forall j | 0 <= j < |r| ensures !IsKey(r[j], habitId, date) {
          if j >= i { assert r[j] == cs[j + 1]; }
        }
      } else {
        FindCheckinAt(r, habitId, date, i);
      }
  }

  /** Every record for another key is kept, and no record for another key appears. */
  lemma UpsertOthers(cs: seq<Checkin>, habitId: string, date: string, quantity: U32, c: Checkin)
    requires !IsKey(c, habitId, date)
    ensures c in Upsert(cs, habitId, date, quantity) <==> c in cs
  {
    match FindCheckin(cs, habitId, date)
    case None =>
    case Some(i) =>
      assert cs == cs[..i] + [cs[i]] + cs[i + 1..];
      if quantity != 0 {
        var r := Upsert(cs, habitId, date, quantity);
        assert r == cs[..i] + [r[i]] + cs[i + 1..];
      }
  }

  /** Other keys read back what they read before. */
  lemma UpsertGetOthers(cs: seq<Checkin>, habitId: string, date: string, quantity: U32, h2: string, d2: string)
    requires !(h2 == habitId && d2 == date)
    ensures GetQuantity(Upsert(cs, habitId, date, quantity), h2, d2) == GetQuantity(cs, h2, d2)
  {
    match FindCheckin(cs, habitId, date)
    case None =>
      if quantity != 0 {
        GetAfterAppend(cs, Checkin(habitId, date, quantity), h2, d2);
      }
    case Some(i) =>
      if quantity == 0 {
        GetAfterRemove(cs, i, h2, d2);
      } else {
        GetAfterOverwrite(cs, i, cs[i].(quantity := quantity), h2, d2);
      }
  }

  /** Appending a record with another key leaves the lookup of a key as it was. */
  lemma GetAfterAppend(cs: seq<Checkin>, c: Checkin, habitId: string, date: string)
    requires !IsKey(c, habitId, date)
    ensures GetQuantity(cs + [c], habitId, date) == GetQuantity(cs, habitId, date)
  {
    match FindCheckin(cs, habitId, date)
    case None =>
      assert FindCheckin(cs + [c], habitId, date) == None;
    case Some(k) =>
      FindCheckinAt(cs + [c], habitId, date, k);
  }

  /** Removing a record with another key leaves the lookup of a key as it was. */
  lemma GetAfterRemove(cs: seq<Checkin>, i: nat, habitId: string, date: string)
    requires i < |cs| && !IsKey(cs[i], habitId, date)
    ensures GetQuantity(cs[..i] + cs[i + 1..], habitId, date) == GetQuantity(cs, habitId, date)
  {
    var r := cs[..i] + cs[i + 1..];
    assert forall j :: 0 <= j < |r| ==> r[j] == if j < i then cs[j] else cs[j + 1];
    match FindCheckin(cs, habitId, date)
    case None =>
      assert FindCheckin(r, habitId, date) == None;
    case Some(k) =>
      var k' := if k < i then k else k - 1;
      FindCheckinAt(r, habitId, date, k');
  }

  /** Overwriting a record with another key by one with another key leaves the lookup of a key as it was. */
  lemma GetAfterOverwrite(cs: seq<Checkin>, i: nat, c: Checkin, habitId: string, date: string)
    requires i < |cs| && !IsKey(cs[i], habitId, date) && !IsKey(c, habitId, date)
    ensures GetQuantity(cs[i := c], habitId, date) == GetQuantity(cs, habitId, date)
  {
    match FindCheckin(cs, habitId, date)
    case None =>
      assert FindCheckin(cs[i := c], habitId, date) == None;
    case Some(k) =>
      FindCheckinAt(cs[i := c], habitId, date, k);
  }

  /** The upsert keeps every key unique. */
  lemma UpsertUnique(cs: seq<Checkin>, habitId: string, date: string, quantity: U32)
    requires UniqueKeys(cs)
    ensures UniqueKeys(Upsert(cs, habitId, date, quantity))
  {
    var r := Upsert(cs, habitId, date, quantity);
    match FindCheckin(cs, habitId, date)
    case None =>
    case Some(i) =>
      if quantity == 0 {
        forall a, b | 0 <= a < b < |r| ensures !IsKey(r[b], r[a].habitId, r[a].date) {
          var a', b' := if a < i then a else a + 1, if b < i then b else b + 1;
          assert r[a] == cs[a'] && r[b] == cs[b'];
        }
      }
  }

  /** Setting 0 leaves no record at all for the key. */
  lemma DeleteRemovesKey(cs: seq<Checkin>, habitId: string, date: string)
    requires UniqueKeys(cs)
    ensures forall j :: 0 <= j < |Upsert(cs, habitId, date, 0)| ==> !IsKey(Upsert(cs, habitId, date, 0)[j], habitId, date)
  {
    var r := Upsert(cs, habitId, date, 0);
    match FindCheckin(cs, habitId, date)
    case None =>
    case Some(i) =>
      forall j | 0 <= j < |r| ensures !IsKey(r[j], habitId, date) {
        if j >= i { assert r[j] == cs[j + 1]; }
      }
  }

  /** Deleting the only check-in leaves the table empty. */
  lemma DeleteOnlyCheckin(habitId: string, date: string, q: U32)
    ensures Upsert([Checkin(habitId, date, q)], habitId, date, 0) == []
  {
    assert FindCheckin([Checkin(habitId, date, q)], habitId, date) == Some(0);
  }

  /** `set_quantity`: a date that does not parse changes nothing; otherwise the table becomes the upsert. */
  method SetQuantity(db: Db, habitId: string, date: string, quantity: U32) returns (r: Outcome)
    modifies db`checkins
    ensures r.Fail? <==> ParseDate(date).Err?
    ensures r.Fail? ==> r.error == Usage && db.checkins == old(db.checkins)
    ensures r.Pass? ==> db.checkins == Upsert(old(db.checkins), habitId, date, quantity)
  {
    if ParseDate(date).Err? {
      return Fail(Usage);
    }
    var idx := FindCheckin(db.checkins, habitId, date);
    if quantity == 0 {
      if idx.Some? {
        var i := idx.value;
        db.checkins := db.checkins[..i] + db.checkins[i + 1..];
      }
      return Pass;
    }
    match idx {
      case None =>
        db.checkins := db.checkins + [Checkin(habitId, date, quantity)];
      case Some(i) =>
        db.checkins := db.checkins[i := db.checkins[i].(quantity := quantity)];
    }
    return Pass;
  }

  /**
   * `add_quantity`: adds `delta` (at least 1) to the recorded quantity,
   * saturating at the `u32` maximum, stores the total and returns it.
   */
  method AddQuantity(db: Db, habitId: string, date: string, delta: U32) returns (r: Result<U32>)
    modifies db`checkins
    ensures r.Ok? <==> ParseDate(date).Ok? && delta >= 1
    ensures r.Err? ==> r.error == Usage && db.checkins == old(db.checkins)
    ensures r.Ok? ==> r.value == SatAdd(GetQuantity(old(db.checkins), habitId, date), delta)
    ensures r.Ok? ==> db.checkins == Upsert(old(db.checkins), habitId, date, r.value)
  {
    if ParseDate(date).Err? {
      return Err(Usage);
    }
    if delta < 1 {
      return Err(Usage);
    }
    var cur := GetQuantity(db.checkins, habitId, date);
    var total := SatAdd(cur, delta);
    var o := SetQuantity(db, habitId, date, total);
    return Ok(total);
  }

  /** A total never falls below what was there, and grows by the whole increment unless it saturates. */
  lemma AddQuantityGrows(cs: seq<Checkin>, habitId: string, date: string, delta: U32)
    requires UniqueKeys(cs) && delta >= 1
    ensures var total := SatAdd(GetQuantity(cs, habitId, date), delta);
      && GetQuantity(Upsert(cs, habitId, date, total), habitId, date) == total
      && total >= GetQuantity(cs, habitId, date)
      && (total == U32Max || total == GetQuantity(cs, habitId, date) + delta)
  {
    UpsertGet(cs, habitId, date, SatAdd(GetQuantity(cs, habitId, date), delta));
  }

  /** A first check-in of 1 followed by adding 2 reads back 3. */
  lemma DefaultThenAddTest(cs: seq<Checkin>, habitId: string, date: string)
    requires UniqueKeys(cs)
    ensures var c1 := Upsert(cs, habitId, date, 1);
      var total := SatAdd(GetQuantity(c1, habitId, date), 2);
      total == 3 && GetQuantity(Upsert(c1, habitId, date, total), habitId, date) == 3
  {
    var c1 := Upsert(cs, habitId, date, 1);
    UpsertGet(cs, habitId, date, 1);
    UpsertUnique(cs, habitId, date, 1);
    UpsertGet(c1, habitId, date, 3);
  }

  // ---------------------------------------------------------------------------
  // Listings
  // ---------------------------------------------------------------------------

  /** Both listings sort by date text, then habit id. */
  function CheckinKey(c: Checkin): seq<string> {
    [c.date, c.habitId]
  }

  function CheckinLt(): (Checkin, Checkin) -> bool {
    ByKey(CheckinKey)
  }

  /** `list_checkins_for_habit`: the habit's records, sorted. */
  function ListCheckinsForHabit(cs: seq<Checkin>, habitId: string): (r: seq<Checkin>)
    ensures Sorted(r, CheckinLt())
    ensures forall c :: c in r <==> c in cs && c.habitId == habitId
    ensures multiset(r) == multiset(Filter(cs, (c: Checkin) => c.habitId == habitId))
  {
    var f := Filter(cs, (c: Checkin) => c.habitId == habitId);
    ByKeyOrder(CheckinKey);
    SortBySorted(f, CheckinLt());
    SortByPermutes(f, CheckinLt());
    forall c ensures c in SortBy(f, CheckinLt()) <==> c in f {
      SortByMembers(f, CheckinLt(), c);
    }
    SortBy(f, CheckinLt())
  }

  /** The filter of `list_checkins_in_range`: habit set, and date text within the optional bounds. */
  predicate InRange(c: Checkin, from: Option<string>, to: Option<string>, habitIds: Option<set<string>>) {
    && (habitIds.Some? ==> c.habitId in habitIds.value)
    && (from.Some? ==> !LexLess(c.date, from.value))
    && (to.Some? ==> !LexLess(to.value, c.date))
  }

  /** `list_checkins_in_range`: the records passing the filter, sorted. */
  function ListCheckinsInRange(cs: seq<Checkin>, from: Option<string>, to: Option<string>, habitIds: Option<set<string>>): (r: seq<Checkin>)
    ensures Sorted(r, CheckinLt())
    ensures forall c :: c in r <==> c in cs && InRange(c, from, to, habitIds)
    ensures multiset(r) == multiset(Filter(cs, (c: Checkin) => InRange(c, from, to, habitIds)))
  {
    var f := Filter(cs, (c: Checkin) => InRange(c, from, to, habitIds));
    ByKeyOrder(CheckinKey);
    SortBySorted(f, CheckinLt());
    SortByPermutes(f, CheckinLt());
    forall c ensures c in SortBy(f, CheckinLt()) <==> c in f {
      SortByMembers(f, CheckinLt(), c);
    }
    SortBy(f, CheckinLt())
  }
}
