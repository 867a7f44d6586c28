/** The order store (database.js): an object store keyed by the `id` field, read back in
    ascending key order, with add, get, update-by-merge, delete and shipping-date range
    queries. */
module Database {
  import opened Types
  import opened Dates
  import opened DateKeys
  import opened Strings

  // ---------------------------------------------------------------- keys

  predicate HasKey(r: Record)
  {
    "id" in r && r["id"].Str?
  }

  function KeyOf(r: Record): string
    requires HasKey(r)
  {
    r["id"].s
  }

  predicate Keyed(rs: seq<Record>)
  {
    forall i :: 0 <= i < |rs| ==> HasKey(rs[i])
  }

  /** Key order of the store: string order, strict. */
  predicate KeyLess(a: string, b: string)
  {
    LexLe(a, b) && a != b
  }

  /** Records in strictly ascending key order, as the store keeps and returns them. */
  predicate SortedByKey(rs: seq<Record>)
    requires Keyed(rs)
  {
    forall i, j :: 0 <= i < j < |rs| ==> KeyLess(KeyOf(rs[i]), KeyOf(rs[j]))
  }

  lemma KeyLessTransitive(a: string, b: string, c: string)
    requires KeyLess(a, b) && KeyLess(b, c)
    ensures KeyLess(a, c)
  {
    LexLeTransitive(a, b, c);
    if a == c {
      LexLeAntisymmetric(a, b);
    }
  }

  /** Index of the record with key `id`, or `|rs|` when there is none. */
  function IndexOf(rs: seq<Record>, id: string): (i: nat)
    requires Keyed(rs)
    ensures i <= |rs|
    ensures forall j :: 0 <= j < i ==> KeyOf(rs[j]) != id
    ensures i < |rs| ==> KeyOf(rs[i]) == id
  {
    if rs == [] then 0 else if KeyOf(rs[0]) == id then 0 else 1 + IndexOf(rs[1..], id)
  }

  /** The record stored under `id`, if any. */
  function Lookup(rs: seq<Record>, id: string): (r: Option<Record>)
    requires Keyed(rs)
    ensures r.Some? <==> exists i :: 0 <= i < |rs| && KeyOf(rs[i]) == id
    ensures r.Some? ==> r.value in rs && HasKey(r.value) && KeyOf(r.value) == id
  {
    var i := IndexOf(rs, id);
    if i < |rs| then Some(rs[i]) else None
  }

  /** In a sorted store a key occurs once, so the record found at any index holding it is the
      one `Lookup` returns. */
  lemma LookupAt(rs: seq<Record>, i: int)
    requires Keyed(rs) && SortedByKey(rs) && 0 <= i < |rs|
    ensures Lookup(rs, KeyOf(rs[i])) == Some(rs[i])
  {
    var k := IndexOf(rs, KeyOf(rs[i]));
    assert k < i ==> KeyLess(KeyOf(rs[k]), KeyOf(rs[i]));
  }

  // ---------------------------------------------------------------- record building

  /** The object `addOrder` stores: a fresh id, then the given fields (which may override it),
      then equal creation and update stamps. */
  function NewRecord(data: Record, freshId: string, now: string): (r: Record)
    ensures r.Keys == data.Keys + {"id", "createdAt", "updatedAt"}
    ensures r["id"] == (if "id" in data then data["id"] else Str(freshId))
    ensures r["createdAt"] == Str(now) && r["updatedAt"] == Str(now)
    ensures forall k :: k in data && k != "createdAt" && k != "updatedAt" ==> r[k] == data[k]
  {
    map["id" := Str(freshId)] + data + map["createdAt" := Str(now), "updatedAt" := Str(now)]
  }

  /** The object `updateOrder` puts: the stored fields overwritten by the given ones, with the
      stored id and creation stamp kept and a new update stamp. A stored record without a
      creation stamp gets none (the spread writes `undefined`). */
  function Merged(existing: Record, data: Record, now: string): (r: Record)
    requires "id" in existing
    ensures "id" in r && r["id"] == existing["id"]
    ensures ("createdAt" in r <==> "createdAt" in existing) && ("createdAt" in r ==> r["createdAt"] == existing["createdAt"])
    ensures "updatedAt" in r && r["updatedAt"] == Str(now)
    ensures forall k :: k != "id" && k != "createdAt" && k != "updatedAt" ==>
              (k in r <==> k in existing || k in data)
              && (k in data ==> r[k] == data[k])
              && (k in existing && k !in data ==> r[k] == existing[k])
  {
    var spread := existing + data + map["id" := existing["id"], "updatedAt" := Str(now)];
    if "createdAt" in existing then spread["createdAt" := existing["createdAt"]]
    else spread - {"createdAt"}
  }

  // ---------------------------------------------------------------- range filter

  /** `orderDate >= startDate && orderDate <= endDate` on the record's shipping date; a missing
      or non-string date compares false. */
  predicate InDateRange(r: Record, startDate: string, endDate: string)
  {
    "shippingDate" in r && r["shippingDate"].Str?
    && LexLe(startDate, r["shippingDate"].s) && LexLe(r["shippingDate"].s, endDate)
  }

  function FilterByDate(rs: seq<Record>, startDate: string, endDate: string): (r: seq<Record>)
    ensures |r| <= |rs|
    ensures forall k :: 0 <= k < |r| ==> r[k] in rs && InDateRange(r[k], startDate, endDate)
  {
    if rs == [] then []
    else
      FilterByDate(rs[..|rs| - 1], startDate, endDate)
      + (if InDateRange(rs[|rs| - 1], startDate, endDate) then [rs[|rs| - 1]] else [])
  }

  /** The filter returns exactly the records whose shipping date lies in the inclusive range. */
  lemma {:induction false} FilterByDateExact(rs: seq<Record>, startDate: string, endDate: string, r: Record)
    ensures r in FilterByDate(rs, startDate, endDate) <==> r in rs && InDateRange(r, startDate, endDate)
  {
    if rs != [] {
      var init := rs[..|rs| - 1];
      FilterByDateExact(init, startDate, endDate, r);
      assert rs == init + [rs[|rs| - 1]];
    }
  }

  /** The filter keeps store order: filtering two segments in turn is filtering their join. */
  lemma {:induction false} FilterByDateKeepsOrder(a: seq<Record>, b: seq<Record>, startDate: string, endDate: string)
    ensures FilterByDate(a + b, startDate, endDate) == FilterByDate(a, startDate, endDate) + FilterByDate(b, startDate, endDate)
    decreases |b|
  {
    if b == [] {
      assert a + b == a;
    } else {
      assert (a + b)[..|a + b| - 1] == a + b[..|b| - 1];
      FilterByDateKeepsOrder(a, b[..|b| - 1], startDate, endDate);
    }
  }

  /** For four-digit years, a record whose shipping date is the key of a valid date is in the
      range of month `month` of `year` exactly when the date lies in that month. */
  lemma MonthRangeMeansMonth(year: int, month: int, d: Date)
    requires 1000 <= year <= 9999 && 0 <= month < 12
    requires Valid(d) && FourDigitYear(d)
    ensures var first, last := MakeDate(year, month, 1), MakeDate(year, month + 1, 0);
            LexLe(DateKey(first), DateKey(d)) && LexLe(DateKey(d), DateKey(last))
            <==> d.year == year && d.month == month
  {
    NormalizeUnique(year, month, year, month);
    FirstOfMonth(year, month);
    LastDayOfMonth(year, month);
    var first, last := Date(year, month, 1), Date(year, month, DaysInMonth(year, month));
    DateKeyOrder(first, d);
    DateKeyOrder(d, last);
    OrdOrder(d, first);
    OrdOrder(last, d);
  }

  datatype DbError = InvalidKey | DuplicateKey | NotFound
  datatype DbResult = Stored(record: Record) | Failed(error: DbError)

  // ---------------------------------------------------------------- the store

  class FlowerDatabase {
    /** The object store's records in ascending key order. */
    var records: seq<Record>

    predicate Valid()
      reads this
    {
      Keyed(records) && SortedByKey(records)
    }

    constructor ()
      ensures Valid() && records == []
    {
      records := [];
    }

    /** `getOrder`: the record stored under `id`, or nothing. */
    function GetOrder(id: string): (r: Option<Record>)
      reads this
      requires Valid()
      ensures r.Some? <==> exists i :: 0 <= i < |records| && KeyOf(records[i]) == id
      ensures r.Some? ==> r.value in records && HasKey(r.value) && KeyOf(r.value) == id
    {
      Lookup(records, id)
    }

    /** `getAllOrders`: every stored record, in ascending key order. */
    function GetAllOrders(): (r: seq<Record>)
      reads this
      requires Valid()
      ensures Keyed(r) && SortedByKey(r)
      ensures forall id :: (exists i :: 0 <= i < |r| && KeyOf(r[i]) == id) <==> GetOrder(id).Some?
    {
      records
    }

    /** `addOrder`: builds the record and adds it; the add fails when the record's id is not a
        valid key or is already stored. */
    method AddOrder(orderData: Record, freshId: string, now: string) returns (result: DbResult)
      requires Valid()
      modifies this
      ensures Valid()
      ensures var order := NewRecord(orderData, freshId, now);
              if !HasKey(order) then result == Failed(InvalidKey) && records == old(records)
              else if old(GetOrder(KeyOf(order))).Some? then result == Failed(DuplicateKey) && records == old(records)
              else result == Stored(order) && |records| == |old(records)| + 1
                   && forall id :: GetOrder(id) == if id == KeyOf(order) then Some(order) else old(GetOrder(id))
    {
      var order := NewRecord(orderData, freshId, now);
      if !HasKey(order) {
        return Failed(InvalidKey);
      }
      var key := KeyOf(order);
      var p := 0;
      while p < |records| && KeyLess(KeyOf(records[p]), key)
        invariant p <= |records|
        invariant forall j :: 0 <= j < p ==> KeyLess(KeyOf(records[j]), key)
      {
        p := p + 1;
      }
      if p < |records| && KeyOf(records[p]) == key {
        LookupAt(records, p);
        return Failed(DuplicateKey);
      }
      InsertAbove(records, p, order);
      ghost var before := records;
      records := records[..p] + [order] + records[p..];
      InsertLookup(before, p, order);
      result := Stored(order);
    }

    /** `updateOrder`: fails, storing nothing, when `id` is not stored; otherwise puts the merge
        of the stored record with `orderData` under the same key. */
    method UpdateOrder(id: string, orderData: Record, now: string) returns (result: DbResult)
      requires Valid()
      modifies this
      ensures Valid()
      ensures old(GetOrder(id)).None? ==> result == Failed(NotFound) && records == old(records)
      ensures old(GetOrder(id)).Some? ==>
                var updated := Merged(old(GetOrder(id)).value, orderData, now);
                result == Stored(updated) && |records| == |old(records)|
                && forall other :: GetOrder(other) == if other == id then Some(updated) else old(GetOrder(other))
    {
      var existing := GetOrder(id);
      if existing.None? {
        return Failed(NotFound);
      }
      var updated := Merged(existing.value, orderData, now);
      var k := IndexOf(records, id);
      ghost var before := records;
      records := records[k := updated];
      ReplaceLookup(before, k, updated);
      result := Stored(updated);
    }

    /** `deleteOrder`: removes the record stored under `id`, if any, and nothing else. */
    method DeleteOrder(id: string)
      requires Valid()
      modifies this
      ensures Valid()
      ensures forall other :: GetOrder(other) == if other == id then None else old(GetOrder(other))
      ensures |records| == |old(records)| - (if old(GetOrder(id)).Some? then 1 else 0)
    {
      var k := IndexOf(records, id);
      if k < |records| {
        ghost var before := records;
        records := records[..k] + records[k + 1..];
        RemoveLookup(before, k);
      } else {
        forall other
          ensures GetOrder(other) == if other == id then None else old(GetOrder(other))
        {
        }
      }
    }

    /** `getOrdersByDateRange`: the stored records whose shipping date lies in the inclusive
        range, in key order. */
    method GetOrdersByDateRange(startDate: string, endDate: string) returns (result: seq<Record>)
      requires Valid()
      ensures result == FilterByDate(records, startDate, endDate)
    {
      var allOrders := GetAllOrders();
      result := [];
      for i := 0 to |allOrders|
        invariant result == FilterByDate(allOrders[..i], startDate, endDate)
      {
        assert allOrders[..i + 1][..i] == allOrders[..i];
        var order := allOrders[i];
        if "shippingDate" in order && order["shippingDate"].Str?
           && LexLe(startDate, order["shippingDate"].s) && LexLe(order["shippingDate"].s, endDate) {
          result := result + [order];
        }
      }
      assert allOrders[..|allOrders|] == allOrders;
    }

    /** `getOrdersByMonth`: the same filter between the keys of `new Date(year, month, 1)` and
        `new Date(year, month + 1, 0)`. */
    method GetOrdersByMonth(year: int, month: int) returns (result: seq<Record>)
      requires Valid()
      ensures result == FilterByDate(records, DateKey(MakeDate(year, month, 1)), DateKey(MakeDate(year, month + 1, 0)))
    {
      var startDate := DateKey(MakeDate(year, month, 1));
      var endDate := DateKey(MakeDate(year, month + 1, 0));
      result := GetOrdersByDateRange(startDate, endDate);
    }
  }

  // ---------------------------------------------------------------- store updates

  /** Inserting at the first position whose key is not below the new key keeps the store
      sorted, provided that key is not already stored there. */
  lemma InsertAbove(rs: seq<Record>, p: int, r: Record)
    requires Keyed(rs) && SortedByKey(rs) && HasKey(r) && 0 <= p <= |rs|
    requires forall j :: 0 <= j < p ==> KeyLess(KeyOf(rs[j]), KeyOf(r))
    requires p < |rs| ==> !KeyLess(KeyOf(rs[p]), KeyOf(r)) && KeyOf(rs[p]) != KeyOf(r)
    ensures Keyed(rs[..p] + [r] + rs[p..]) && SortedByKey(rs[..p] + [r] + rs[p..])
  {
    var n := rs[..p] + [r] + rs[p..];
    if p < |rs| {
      LexLeTotal(KeyOf(rs[p]), KeyOf(r));
      forall j | p < j < |rs|
        ensures KeyLess(KeyOf(r), KeyOf(rs[j]))
      {
        KeyLessTransitive(KeyOf(r), KeyOf(rs[p]), KeyOf(rs[j]));
      }
    }
    forall i, j | 0 <= i < j < |n|
      ensures KeyLess(KeyOf(n[i]), KeyOf(n[j]))
    {
      assert n[i] == (if i < p then rs[i] else if i == p then r else rs[i - 1]);
      assert n[j] == (if j < p then rs[j] else if j == p then r else rs[j - 1]);
    }
  }

  /** After an insertion, the inserted key finds the new record and every other key finds what
      it found before. */
  lemma InsertLookup(rs: seq<Record>, p: int, r: Record)
    requires Keyed(rs) && SortedByKey(rs) && HasKey(r) && 0 <= p <= |rs|
    requires Keyed(rs[..p] + [r] + rs[p..]) && SortedByKey(rs[..p] + [r] + rs[p..])
    ensures forall id :: Lookup(rs[..p] + [r] + rs[p..], id) == if id == KeyOf(r) then Some(r) else Lookup(rs, id)
  {
    var n := rs[..p] + [r] + rs[p..];
    forall id
      ensures Lookup(n, id) == if id == KeyOf(r) then Some(r) else Lookup(rs, id)
    {
      assert n[p] == r;
      LookupAt(n, p);
      if id != KeyOf(r) {
        var k := IndexOf(rs, id);
        if k < |rs| {
          var k' := if k < p then k else k + 1;
          assert n[k'] == rs[k];
          LookupAt(n, k');
          LookupAt(rs, k);
        } else {
          forall j | 0 <= j < |n|
            ensures KeyOf(n[j]) != id
          {
            assert n[j] == (if j < p then rs[j] else if j == p then r else rs[j - 1]);
          }
        }
      }
    }
  }

  /** Replacing a record by one with the same key keeps the store sorted and changes only what
      that key finds. */
  lemma ReplaceLookup(rs: seq<Record>, k: int, r: Record)
    requires Keyed(rs) && SortedByKey(rs) && 0 <= k < |rs| && HasKey(r) && KeyOf(r) == KeyOf(rs[k])
    ensures Keyed(rs[k := r]) && SortedByKey(rs[k := r])
    ensures forall id :: Lookup(rs[k := r], id) == if id == KeyOf(r) then Some(r) else Lookup(rs, id)
  {
    var n := rs[k := r];
    forall i, j | 0 <= i < j < |n|
      ensures KeyLess(KeyOf(n[i]), KeyOf(n[j]))
    {
    }
    forall id
      ensures Lookup(n, id) == if id == KeyOf(r) then Some(r) else Lookup(rs, id)
    {
      LookupAt(n, k);
      if id != KeyOf(r) {
        var i := IndexOf(rs, id);
        if i < |rs| {
          LookupAt(n, i);
          LookupAt(rs, i);
        }
      }
    }
  }

  /** Removing a record keeps the store sorted; its key then finds nothing and every other key
      finds what it found before. */
  lemma RemoveLookup(rs: seq<Record>, k: int)
    requires Keyed(rs) && SortedByKey(rs) && 0 <= k < |rs|
    ensures Keyed(rs[..k] + rs[k + 1..]) && SortedByKey(rs[..k] + rs[k + 1..])
    ensures forall id :: Lookup(rs[..k] + rs[k + 1..], id) == if id == KeyOf(rs[k]) then None else Lookup(rs, id)
  {
    var n := rs[..k] + rs[k + 1..];
    assert forall j :: 0 <= j < |n| ==> n[j] == rs[if j < k then j else j + 1];
    forall id
      ensures Lookup(n, id) == if id == KeyOf(rs[k]) then None else Lookup(rs, id)
    {
      if id == KeyOf(rs[k]) {
        forall j | 0 <= j < |n|
          ensures KeyOf(n[j]) != id
        {
          var j' := if j < k then j else j + 1;
          assert KeyLess(KeyOf(rs[j']), KeyOf(rs[k])) || KeyLess(KeyOf(rs[k]), KeyOf(rs[j']));
        }
      } else {
        var i := IndexOf(rs, id);
        if i < |rs| {
          var i' := if i < k then i else i - 1;
          assert n[i'] == rs[i];
          LookupAt(n, i');
          LookupAt(rs, i);
        } else {
          assert forall j :: 0 <= j < |n| ==> KeyOf(n[j]) != id;
        }
      }
    }
  }
}
