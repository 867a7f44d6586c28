/** The letter stock page (alphabetStock.js): the list of stocked characters with their
    quantities, and the add, adjust and delete operations on it. */
module AlphabetStock {
  import opened Types
  import Strings

  datatype StockItem = StockItem(id: string, character: string, quantity: int)

  /** The store operations the page calls; they are recorded, not run. */
  datatype StockCall =
    | AddAlphabetItem(character: string, quantity: int)
    | UpdateAlphabetQuantity(id: string, quantity: int)
    | DeleteAlphabetItem(id: string)

  /** Index of the first item with id `id` (`find`), or `|stock|` when there is none. */
  function IdIndex(stock: seq<StockItem>, id: string): (i: nat)
    ensures i <= |stock|
    ensures forall j :: 0 <= j < i ==> stock[j].id != id
    ensures i < |stock| ==> stock[i].id == id
  {
    if stock == [] then 0 else if stock[0].id == id then 0 else 1 + IdIndex(stock[1..], id)
  }

  predicate HasCharacter(stock: seq<StockItem>, c: string)
  {
    exists i :: 0 <= i < |stock| && stock[i].character == c
  }

  predicate UniqueCharacters(stock: seq<StockItem>)
  {
    forall i, j :: 0 <= i < j < |stock| ==> stock[i].character != stock[j].character
  }

  predicate UniqueIds(stock: seq<StockItem>)
  {
    forall i, j :: 0 <= i < j < |stock| ==> stock[i].id != stock[j].id
  }

  predicate NonNegative(stock: seq<StockItem>)
  {
    forall i :: 0 <= i < |stock| ==> stock[i].quantity >= 0
  }

  /** `Math.max(0, quantity + delta)`. */
  function Clamped(quantity: int, delta: int): (q: int)
    ensures q >= 0 && q >= quantity + delta
    ensures q == quantity + delta || q == 0
  {
    if quantity + delta < 0 then 0 else quantity + delta
  }

  /** The list after a successful `adjustQuantity`: only the item with that id changes, and only
      its quantity. */
  function Adjusted(stock: seq<StockItem>, id: string, delta: int): (r: seq<StockItem>)
    ensures |r| == |stock|
    ensures forall j :: 0 <= j < |r| ==> r[j].id == stock[j].id && r[j].character == stock[j].character
    ensures forall j :: 0 <= j < |r| && j != IdIndex(stock, id) ==> r[j] == stock[j]
    ensures IdIndex(stock, id) < |stock| ==> r[IdIndex(stock, id)].quantity == Clamped(stock[IdIndex(stock, id)].quantity, delta)
    ensures IdIndex(stock, id) == |stock| ==> r == stock
  {
    var k := IdIndex(stock, id);
    if k < |stock| then stock[k := stock[k].(quantity := Clamped(stock[k].quantity, delta))] else stock
  }

  /** Adjusting keeps characters unique and quantities non-negative. */
  lemma AdjustedKeepsInvariants(stock: seq<StockItem>, id: string, delta: int)
    ensures UniqueCharacters(stock) ==> UniqueCharacters(Adjusted(stock, id, delta))
    ensures UniqueIds(stock) ==> UniqueIds(Adjusted(stock, id, delta))
    ensures NonNegative(stock) ==> NonNegative(Adjusted(stock, id, delta))
  {
  }

  /** The list after a successful `deleteItem`: the item with that id is gone, the rest keep
      their order. */
  function Removed(stock: seq<StockItem>, id: string): (r: seq<StockItem>)
    ensures IdIndex(stock, id) < |stock| ==>
              |r| == |stock| - 1
              && (forall j :: 0 <= j < IdIndex(stock, id) ==> r[j] == stock[j])
              && (forall j :: IdIndex(stock, id) <= j < |r| ==> r[j] == stock[j + 1])
    ensures IdIndex(stock, id) == |stock| ==> r == stock
  {
    var k := IdIndex(stock, id);
    if k < |stock| then stock[..k] + stock[k + 1..] else stock
  }

  /** With unique ids, a delete leaves no item with that id. */
  lemma RemovedIsGone(stock: seq<StockItem>, id: string)
    requires UniqueIds(stock)
    ensures forall j :: 0 <= j < |Removed(stock, id)| ==> Removed(stock, id)[j].id != id
  {
    var k := IdIndex(stock, id);
    var r := Removed(stock, id);
    forall j | 0 <= j < |r|
      ensures r[j].id != id
    {
      if k < |stock| && j >= k {
        assert r[j] == stock[j + 1];
      }
    }
  }

  /** Deleting keeps characters and ids unique and quantities non-negative. */
  lemma RemovedKeepsInvariants(stock: seq<StockItem>, id: string)
    ensures UniqueCharacters(stock) ==> UniqueCharacters(Removed(stock, id))
    ensures UniqueIds(stock) ==> UniqueIds(Removed(stock, id))
    ensures NonNegative(stock) ==> NonNegative(Removed(stock, id))
  {
    var k := IdIndex(stock, id);
    var r := Removed(stock, id);
    forall i, j | 0 <= i < j < |r|
      ensures r[i] == stock[if i < k then i else i + 1] && r[j] == stock[if j < k then j else j + 1]
    {
    }
  }

  /** Adding a character not yet stocked keeps characters unique; with a fresh id, ids stay
      unique; and a quantity that parses to a non-negative number (or defaults to 0) keeps
      quantities non-negative. */
  lemma AppendKeepsInvariants(stock: seq<StockItem>, item: StockItem)
    requires !HasCharacter(stock, item.character)
    ensures UniqueCharacters(stock) ==> UniqueCharacters(stock + [item])
    ensures UniqueIds(stock) && (forall j :: 0 <= j < |stock| ==> stock[j].id != item.id) ==> UniqueIds(stock + [item])
    ensures NonNegative(stock) && item.quantity >= 0 ==> NonNegative(stock + [item])
  {
    var r := stock + [item];
    forall i | 0 <= i < |stock|
      ensures r[i] == stock[i] && r[|stock|] == item
    {
    }
  }

  datatype AddResult = EmptyCharacter | AlreadyStocked | ItemAdded | AddFailed
  datatype ChangeResult = UnknownId | NotConfirmed | Changed | ChangeFailed

  class AlphabetStockManager {
    var stock: seq<StockItem>
    /** Store calls made so far, oldest first. */
    var calls: seq<StockCall>

    constructor ()
      ensures stock == [] && calls == []
    {
      stock := [];
      calls := [];
    }

    /** `loadStock`: replaces the list with what the store returns. */
    method LoadStock(loaded: seq<StockItem>)
      modifies this
      ensures stock == loaded && calls == old(calls)
    {
      stock := loaded;
    }

    /** `handleAddSubmit`: trims the character and parses the quantity (`|| 0`); refuses an empty
        or already stocked character; otherwise asks the store to add it and, when that
        succeeds (`ok`), the reloaded list ends with the new item under the store's `newId`. */
    method HandleAddSubmit(rawCharacter: string, parsedQuantity: Option<int>, newId: string, ok: bool)
      returns (result: AddResult)
      modifies this
      ensures var character, quantity := Strings.Trim(rawCharacter), OrDefault(parsedQuantity, 0);
              (result == EmptyCharacter <==> character == [])
              && (result == AlreadyStocked <==> character != [] && HasCharacter(old(stock), character))
              && (result == EmptyCharacter || result == AlreadyStocked ==> stock == old(stock) && calls == old(calls))
              && (result == ItemAdded || result == AddFailed ==>
                    calls == old(calls) + [AddAlphabetItem(character, quantity)]
                    && (result == ItemAdded <==> ok)
                    && stock == (if ok then old(stock) + [StockItem(newId, character, quantity)] else old(stock)))
    {
      var character := Strings.Trim(rawCharacter);
      var quantity := OrDefault(parsedQuantity, 0);
      if character == [] {
        return EmptyCharacter;
      }
      var k := 0;
      while k < |stock| && stock[k].character != character
        invariant k <= |stock|
        invariant forall j :: 0 <= j < k ==> stock[j].character != character
      {
        k := k + 1;
      }
      if k < |stock| {
        return AlreadyStocked;
      }
      calls := calls + [AddAlphabetItem(character, quantity)];
      if !ok {
        return AddFailed;
      }
      stock := stock + [StockItem(newId, character, quantity)];
      result := ItemAdded;
    }

    /** `adjustQuantity`: unknown ids do nothing; otherwise the clamped quantity is sent to the
        store and, when that succeeds, written into the item. */
    method AdjustQuantity(id: string, delta: int, ok: bool) returns (result: ChangeResult)
      modifies this
      ensures IdIndex(old(stock), id) == |old(stock)| ==> result == UnknownId && stock == old(stock) && calls == old(calls)
      ensures IdIndex(old(stock), id) < |old(stock)| ==>
                var item := old(stock)[IdIndex(old(stock), id)];
                calls == old(calls) + [UpdateAlphabetQuantity(id, Clamped(item.quantity, delta))]
                && (result == Changed <==> ok) && (result == Changed || result == ChangeFailed)
                && stock == (if ok then Adjusted(old(stock), id, delta) else old(stock))
    {
      var k := 0;
      while k < |stock| && stock[k].id != id
        invariant k <= |stock|
        invariant forall j :: 0 <= j < k ==> stock[j].id != id
      {
        k := k + 1;
      }
      if k == |stock| {
        return UnknownId;
      }
      var newQuantity := if stock[k].quantity + delta < 0 then 0 else stock[k].quantity + delta;
      calls := calls + [UpdateAlphabetQuantity(id, newQuantity)];
      if !ok {
        return ChangeFailed;
      }
      stock := stock[k := stock[k].(quantity := newQuantity)];
      result := Changed;
    }

    /** `deleteItem`: unknown ids and unconfirmed deletes do nothing; otherwise the store deletes
        the item and, when that succeeds, the reloaded list lacks it. */
    method DeleteItem(id: string, confirmed: bool, ok: bool) returns (result: ChangeResult)
      modifies this
      ensures IdIndex(old(stock), id) == |old(stock)| ==> result == UnknownId && stock == old(stock) && calls == old(calls)
      ensures IdIndex(old(stock), id) < |old(stock)| && !confirmed ==> result == NotConfirmed && stock == old(stock) && calls == old(calls)
      ensures IdIndex(old(stock), id) < |old(stock)| && confirmed ==>
                calls == old(calls) + [DeleteAlphabetItem(id)]
                && (result == Changed <==> ok) && (result == Changed || result == ChangeFailed)
                && stock == (if ok then Removed(old(stock), id) else old(stock))
    {
      var k := 0;
      while k < |stock| && stock[k].id != id
        invariant k <= |stock|
        invariant forall j :: 0 <= j < k ==> stock[j].id != id
      {
        k := k + 1;
      }
      if k == |stock| {
        return UnknownId;
      }
      if !confirmed {
        return NotConfirmed;
      }
      calls := calls + [DeleteAlphabetItem(id)];
      if !ok {
        return ChangeFailed;
      }
      stock := stock[..k] + stock[k + 1..];
      result := Changed;
    }
  }
}
