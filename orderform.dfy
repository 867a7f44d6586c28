/** The order form (orderForm.js): the draft's list of decoration letters checked against a
    snapshot of letter stock, the balance shown to the user, and the order in which a submit or
    a delete calls the store. */
module OrderForm {
  import opened Types

  /** One entry of the letter stock snapshot the form loads. */
  datatype StockLevel = StockLevel(character: string, quantity: int)

  /** One dropdown option: a character and how many of it are still available. */
  datatype Choice = Choice(character: string, available: int)

  // ---------------------------------------------------------------- list helpers

  /** Index of the first stock entry for `c` (`find`), or `|stock|` when there is none. */
  function StockIndex(stock: seq<StockLevel>, c: string): (i: nat)
    ensures i <= |stock|
    ensures forall j :: 0 <= j < i ==> stock[j].character != c
    ensures i < |stock| ==> stock[i].character == c
  {
    if stock == [] then 0 else if stock[0].character == c then 0 else 1 + StockIndex(stock[1..], c)
  }

  /** Index of the first selected entry for `c`, or `|selected|` when there is none. */
  function SelectedIndex(selected: seq<Decoration>, c: string): (i: nat)
    ensures i <= |selected|
    ensures forall j :: 0 <= j < i ==> selected[j].character != c
    ensures i < |selected| ==> selected[i].character == c
  {
    if selected == [] then 0 else if selected[0].character == c then 0 else 1 + SelectedIndex(selected[1..], c)
  }

  /** Total quantity of `c` over the selected entries. */
  function SelectedTotal(selected: seq<Decoration>, c: string): int
  {
    if selected == [] then 0
    else
      var last := selected[|selected| - 1];
      SelectedTotal(selected[..|selected| - 1], c) + (if last.character == c then last.quantity else 0)
  }

  /** No character is selected twice. */
  predicate Distinct(selected: seq<Decoration>)
  {
    forall i, j :: 0 <= i < j < |selected| ==> selected[i].character != selected[j].character
  }

  /** For every stocked character, the selected total is within its stock quantity. */
  ghost predicate WithinStock(stock: seq<StockLevel>, selected: seq<Decoration>)
  {
    forall c :: StockIndex(stock, c) < |stock| ==> SelectedTotal(selected, c) <= stock[StockIndex(stock, c)].quantity
  }

  /** `alphabetStock.find` by character, as the index of the entry found. */
  method FindStock(stock: seq<StockLevel>, c: string) returns (k: nat)
    ensures k == StockIndex(stock, c)
  {
    k := 0;
    while k < |stock| && stock[k].character != c
      invariant k <= |stock|
      invariant forall j :: 0 <= j < k ==> stock[j].character != c
    {
      k := k + 1;
    }
  }

  /** `selectedAlphabets.find` by character, as the index of the entry found. */
  method FindSelected(selected: seq<Decoration>, c: string) returns (e: nat)
    ensures e == SelectedIndex(selected, c)
  {
    e := 0;
    while e < |selected| && selected[e].character != c
      invariant e <= |selected|
      invariant forall j :: 0 <= j < e ==> selected[j].character != c
    {
      e := e + 1;
    }
  }

  /** The `filter` and `reduce` that add up the selected quantity of `c`. */
  method TotalSelected(selected: seq<Decoration>, c: string) returns (total: int)
    ensures total == SelectedTotal(selected, c)
  {
    total := 0;
    for i := 0 to |selected|
      invariant total == SelectedTotal(selected[..i], c)
    {
      assert selected[..i + 1][..i] == selected[..i];
      if selected[i].character == c {
        total := total + selected[i].quantity;
      }
    }
    assert selected[..|selected|] == selected;
  }

  // ---------------------------------------------------------------- dropdown

  /** The options of `updateAlphabetDropdown`, in stock order: each stock entry whose quantity
      minus the selected total of its character is positive, with that difference. */
  function Choices(stock: seq<StockLevel>, selected: seq<Decoration>): seq<Choice>
  {
    if stock == [] then []
    else
      var s := stock[|stock| - 1];
      var available := s.quantity - SelectedTotal(selected, s.character);
      Choices(stock[..|stock| - 1], selected) + (if available <= 0 then [] else [Choice(s.character, available)])
  }
  /** At most one option per stock entry, and every option offers a positive amount. */
  lemma {:induction false} ChoicesBounded(stock: seq<StockLevel>, selected: seq<Decoration>)
    ensures |Choices(stock, selected)| <= |stock|
    ensures forall k :: 0 <= k < |Choices(stock, selected)| ==> Choices(stock, selected)[k].available > 0
  {
    if stock != [] {
      ChoicesBounded(stock[..|stock| - 1], selected);
    }
  }


  /** Stock entry `s` yields option `o`: same character, and `o` shows what is left of it. */
  predicate Offers(s: StockLevel, selected: seq<Decoration>, o: Choice)
  {
    s.character == o.character && o.available == s.quantity - SelectedTotal(selected, o.character) && o.available > 0
  }

  /** An option is offered exactly for a stock entry with something left, showing what is left. */
  lemma {:induction false} ChoicesExact(stock: seq<StockLevel>, selected: seq<Decoration>, o: Choice)
    ensures o in Choices(stock, selected) <==> exists i :: 0 <= i < |stock| && Offers(stock[i], selected, o)
  {
    if stock != [] {
      var init := stock[..|stock| - 1];
      ChoicesExact(init, selected, o);
      assert forall i :: 0 <= i < |init| ==> init[i] == stock[i];
      if Offers(stock[|stock| - 1], selected, o) {
        assert o in Choices(stock, selected);
      }
    }
  }

  /** Options follow stock order: the options of two stock segments are those of each, in turn. */
  lemma {:induction false} ChoicesInStockOrder(a: seq<StockLevel>, b: seq<StockLevel>, selected: seq<Decoration>)
    ensures Choices(a + b, selected) == Choices(a, selected) + Choices(b, selected)
    decreases |b|
  {
    if b == [] {
      assert a + b == a;
    } else {
      assert (a + b)[..|a + b| - 1] == a + b[..|b| - 1];
      ChoicesInStockOrder(a, b[..|b| - 1], selected);
    }
  }

  // ---------------------------------------------------------------- adding a letter

  datatype AddOutcome = Ignored | NotEnoughStock(available: int) | Added

  /** The checks of `addSelectedAlphabet`: an empty character does nothing; a stocked
      character whose selected total plus `quantity` exceeds its stock is refused. */
  function AddCheck(stock: seq<StockLevel>, selected: seq<Decoration>, c: string, quantity: int): AddOutcome
  {
    if c == "" then Ignored
    else
      var k := StockIndex(stock, c);
      var already := SelectedTotal(selected, c);
      if k < |stock| && already + quantity > stock[k].quantity then NotEnoughStock(stock[k].quantity - already)
      else Added
  }

  /** An accepted add: the existing entry for `c` grows in place, or a new entry is appended. */
  function Merge(selected: seq<Decoration>, c: string, quantity: int): (r: seq<Decoration>)
    ensures SelectedIndex(selected, c) < |selected| ==>
              |r| == |selected| && r[SelectedIndex(selected, c)] == Decoration(c, selected[SelectedIndex(selected, c)].quantity + quantity)
              && forall j :: 0 <= j < |r| && j != SelectedIndex(selected, c) ==> r[j] == selected[j]
    ensures SelectedIndex(selected, c) == |selected| ==> r == selected + [Decoration(c, quantity)]
  {
    var i := SelectedIndex(selected, c);
    if i < |selected| then selected[i := Decoration(c, selected[i].quantity + quantity)]
    else selected + [Decoration(c, quantity)]
  }

  /** Changing one entry changes only the totals of its old and new character. */
  lemma {:induction false} TotalAfterUpdate(selected: seq<Decoration>, i: int, e: Decoration, c: string)
    requires 0 <= i < |selected|
    ensures SelectedTotal(selected[i := e], c)
            == SelectedTotal(selected, c) - (if selected[i].character == c then selected[i].quantity else 0)
               + (if e.character == c then e.quantity else 0)
    decreases |selected|
  {
    var s' := selected[i := e];
    if i < |selected| - 1 {
      assert s'[..|s'| - 1] == selected[..|selected| - 1][i := e];
      TotalAfterUpdate(selected[..|selected| - 1], i, e, c);
    } else {
      assert s'[..|s'| - 1] == selected[..|selected| - 1];
    }
  }

  /** An add of `quantity` to `c` raises the total of `c` by exactly `quantity` and leaves every
      other character's total alone. */
  lemma MergeTotals(selected: seq<Decoration>, c: string, quantity: int, other: string)
    ensures SelectedTotal(Merge(selected, c, quantity), other)
            == SelectedTotal(selected, other) + (if other == c then quantity else 0)
  {
    var i := SelectedIndex(selected, c);
    if i < |selected| {
      TotalAfterUpdate(selected, i, Decoration(c, selected[i].quantity + quantity), other);
    } else {
      var r := selected + [Decoration(c, quantity)];
      assert r[..|r| - 1] == selected;
    }
  }

  /** Merging keeps the characters distinct. */
  lemma MergeKeepsDistinct(selected: seq<Decoration>, c: string, quantity: int)
    requires Distinct(selected)
    ensures Distinct(Merge(selected, c, quantity))
  {
    var r := Merge(selected, c, quantity);
    var i := SelectedIndex(selected, c);
    if i == |selected| {
      forall j, k | 0 <= j < k < |r|
        ensures r[j].character != r[k].character
      {
        if k == |selected| {
          assert r[j] == selected[j];
        }
      }
    }
  }

  /** An accepted add never takes a stocked character past its stock. */
  lemma AddKeepsWithinStock(stock: seq<StockLevel>, selected: seq<Decoration>, c: string, quantity: int)
    requires WithinStock(stock, selected)
    requires AddCheck(stock, selected, c, quantity) == Added
    ensures WithinStock(stock, Merge(selected, c, quantity))
  {
    forall other | StockIndex(stock, other) < |stock|
      ensures SelectedTotal(Merge(selected, c, quantity), other) <= stock[StockIndex(stock, other)].quantity
    {
      MergeTotals(selected, c, quantity, other);
    }
  }

  /** The outcome of the stock check: an empty choice is ignored; an add is refused exactly for a
      stocked character whose selected total would then exceed the first matching stock entry,
      and the refusal reports the amount still available, which is less than asked for; every
      other add is accepted, including one for a character with no stock entry. */
  lemma AddCheckOutcome(stock: seq<StockLevel>, selected: seq<Decoration>, c: string, quantity: int)
    ensures AddCheck(stock, selected, c, quantity) == Ignored <==> c == ""
    ensures AddCheck(stock, selected, c, quantity).NotEnoughStock? <==>
            c != "" && StockIndex(stock, c) < |stock| && SelectedTotal(selected, c) + quantity > stock[StockIndex(stock, c)].quantity
    ensures AddCheck(stock, selected, c, quantity).NotEnoughStock? ==>
            var available := AddCheck(stock, selected, c, quantity).available;
            available == stock[StockIndex(stock, c)].quantity - SelectedTotal(selected, c) && available < quantity
    ensures AddCheck(stock, selected, c, quantity) == Added <==>
            c != "" && (StockIndex(stock, c) < |stock| ==> SelectedTotal(selected, c) + quantity <= stock[StockIndex(stock, c)].quantity)
  {
  }

  // ---------------------------------------------------------------- removing a letter

  /** Where `splice(index, 1)` starts: a negative index counts from the end, and an index past
      the end removes nothing. */
  function SpliceStart(length: nat, index: int): (s: nat)
    ensures s <= length
  {
    if index < 0 then (if length + index < 0 then 0 else length + index)
    else if index > length then length else index
  }

  /** `selectedAlphabets.splice(index, 1)`: the entry at the start position, if any, is gone;
      the others keep their relative order. */
  function RemoveAt(selected: seq<Decoration>, index: int): (r: seq<Decoration>)
    ensures var s := SpliceStart(|selected|, index);
            |r| == (if s < |selected| then |selected| - 1 else |selected|)
            && (forall k :: 0 <= k < s && k < |r| ==> r[k] == selected[k])
            && (forall k :: s <= k < |r| ==> r[k] == selected[k + 1])
  {
    var s := SpliceStart(|selected|, index);
    if s < |selected| then selected[..s] + selected[s + 1..] else selected
  }

  /** Removing an entry keeps the characters distinct. */
  lemma RemoveKeepsDistinct(selected: seq<Decoration>, index: int)
    requires Distinct(selected)
    ensures Distinct(RemoveAt(selected, index))
  {
    var r := RemoveAt(selected, index);
    var s := SpliceStart(|selected|, index);
    forall j, k | 0 <= j < k < |r|
      ensures r[j].character != r[k].character
    {
      var j' := if j < s then j else j + 1;
      var k' := if k < s then k else k + 1;
      assert r[j] == selected[j'] && r[k] == selected[k'];
    }
  }

  // ---------------------------------------------------------------- balance and form data

  datatype BalanceState = Outstanding(remaining: int) | Paid | Overpaid(remaining: int)

  /** `updateRemainingBalance`: the remaining balance is price minus deposit (each `|| 0`); it
      reads "Paid" when it is zero and "Overpaid" when negative, but only for a positive price. */
  function BalanceDisplay(price: Option<int>, deposit: Option<int>): (b: BalanceState)
    ensures var p, d := OrDefault(price, 0), OrDefault(deposit, 0);
            (b == Paid <==> p > 0 && p == d)
            && (b.Overpaid? <==> p > 0 && d > p)
            && (b.Outstanding? || b.Overpaid? ==> b.remaining == p - d)
  {
    var p := OrDefault(price, 0);
    var d := OrDefault(deposit, 0);
    var remaining := p - d;
    if p > 0 && remaining <= 0 then
      if remaining == 0 then Paid else Overpaid(remaining)
    else Outstanding(remaining)
  }

  /** The form fields the model reads; numbers as parsed, `None` when they do not parse. */
  datatype FormInput = FormInput(
    shippingDate: string,
    customerName: string,
    status: Status,
    price: Option<int>,
    shippingCost: Option<int>,
    depositAmount: Option<int>)

  /** The object `getFormData` builds. */
  datatype FormData = FormData(
    shippingDate: string,
    customerName: string,
    status: Status,
    price: int,
    shippingCost: int,
    depositAmount: int,
    remainingBalance: int,
    alphabetDecorations: Option<seq<Decoration>>)

  /** The stored balance agrees with the one displayed: zero exactly when the display reads
      "Paid" for a positive price, and the shipping cost plays no part in either. */
  lemma BalanceMatchesFormData(input: FormInput, selected: Option<seq<Decoration>>, cost: Option<int>)
    ensures var data := FormDataOf(input, selected);
            var data' := FormDataOf(input.(shippingCost := cost), selected);
            data'.remainingBalance == data.remainingBalance
            && (BalanceDisplay(input.price, input.depositAmount) == Paid <==> data.price > 0 && data.remainingBalance == 0)
            && (BalanceDisplay(input.price, input.depositAmount).Overpaid? <==> data.price > 0 && data.remainingBalance < 0)
  {
  }

  /** `getFormData` for the given field values and decoration list. */
  function FormDataOf(input: FormInput, decorations: Option<seq<Decoration>>): (data: FormData)
    ensures data.remainingBalance == data.price - data.depositAmount
    ensures data.price == OrDefault(input.price, 0) && data.shippingCost == OrDefault(input.shippingCost, 0)
            && data.depositAmount == OrDefault(input.depositAmount, 0)
  {
    var price := OrDefault(input.price, 0);
    var shippingCost := OrDefault(input.shippingCost, 0);
    var depositAmount := OrDefault(input.depositAmount, 0);
    FormData(input.shippingDate, input.customerName, input.status, price, shippingCost, depositAmount,
             price - depositAmount, decorations)
  }

  // ---------------------------------------------------------------- store calls

  /** The store operations the form calls; stock restore and deduct are recorded, not run. */
  datatype StoreCall =
    | RestoreStock(items: seq<Decoration>)
    | UpdateOrder(id: string, data: FormData)
    | AddOrder(data: FormData)
    | DeductStock(items: seq<Decoration>)
    | DeleteOrder(id: string)

  /** A JavaScript-truthy order id: present and not the empty string. */
  predicate IsSet(id: Option<string>)
  {
    id.Some? && id.value != ""
  }

  /** The calls of a submit that runs to the end: restore the original decorations (editing,
      when there were any), update or add the order, then deduct the new decorations. */
  function SubmitPlan(id: Option<string>, original: Option<seq<Decoration>>, data: FormData): seq<StoreCall>
  {
    (if IsSet(id) then
       (if original.Some? then [RestoreStock(original.value)] else []) + [UpdateOrder(id.value, data)]
     else [AddOrder(data)])
    + (if data.alphabetDecorations.Some? then [DeductStock(data.alphabetDecorations.value)] else [])
  }

  /** The calls of a confirmed delete: restore the original decorations, then delete. */
  function DeletePlan(id: string, original: Option<seq<Decoration>>): seq<StoreCall>
  {
    (if original.Some? then [RestoreStock(original.value)] else []) + [DeleteOrder(id)]
  }
  /** The submit plan writes the order exactly once: by update when editing, with the restore of
      the original decorations first when there were any, and by add otherwise. It deducts the
      new decorations last, exactly when there are any. */
  lemma SubmitPlanShape(id: Option<string>, original: Option<seq<Decoration>>, data: FormData)
    ensures var plan := SubmitPlan(id, original, data);
            1 <= |plan| <= 3
            && (IsSet(id) ==> UpdateOrder(id.value, data) in plan && AddOrder(data) !in plan
                              && (plan[0].RestoreStock? <==> original.Some?))
            && (!IsSet(id) ==> plan[0] == AddOrder(data) && forall k :: 0 <= k < |plan| ==> !plan[k].UpdateOrder? && !plan[k].RestoreStock?)
            && (plan[|plan| - 1].DeductStock? <==> data.alphabetDecorations.Some?)
  {
  }

  /** The delete plan deletes the order last, after restoring the original decorations when there
      were any. */
  lemma DeletePlanShape(id: string, original: Option<seq<Decoration>>)
    ensures var plan := DeletePlan(id, original);
            |plan| >= 1 && plan[|plan| - 1] == DeleteOrder(id)
            && (|plan| == 2 <==> original.Some?)
            && (original.Some? ==> plan[0] == RestoreStock(original.value))
  {
  }


  /** The calls made when call number `failAt` (counting from 0) throws: it and those before. */
  function Executed(plan: seq<StoreCall>, failAt: Option<nat>): (done: seq<StoreCall>)
    ensures |done| <= |plan| && done == plan[..|done|]
    ensures done == plan <==> failAt.None? || failAt.value >= |plan| - 1
  {
    if failAt.Some? && failAt.value < |plan| then plan[..failAt.value + 1] else plan
  }

  predicate Completes(plan: seq<StoreCall>, failAt: Option<nat>)
  {
    failAt.None? || failAt.value >= |plan|
  }

  /** Whatever call fails: new decorations are deducted only right after the order itself was
      written; an update comes only when editing, right after the restore of the original
      decorations when there were any; and a submit that completes writes the order exactly once. */
  lemma SubmitCallOrder(id: Option<string>, original: Option<seq<Decoration>>, data: FormData, failAt: Option<nat>)
    ensures var done := Executed(SubmitPlan(id, original, data), failAt);
            (forall k :: 0 <= k < |done| && done[k].DeductStock? ==>
               k >= 1 && ((IsSet(id) && done[k - 1] == UpdateOrder(id.value, data)) || done[k - 1] == AddOrder(data))
               && done[k].items == data.alphabetDecorations.value)
            && (forall k :: 0 <= k < |done| && done[k].UpdateOrder? ==>
                  IsSet(id) && (original.Some? ==> k == 1 && done[0] == RestoreStock(original.value)))
            && (forall k :: 0 <= k < |done| && done[k].RestoreStock? ==> k == 0 && IsSet(id) && done[k].items == original.value)
            && (Completes(SubmitPlan(id, original, data), failAt) ==>
                  (IsSet(id) ==> UpdateOrder(id.value, data) in done && AddOrder(data) !in done)
                  && (!IsSet(id) ==> AddOrder(data) in done && forall k :: 0 <= k < |done| ==> !done[k].UpdateOrder?))
  {
  }

  /** A delete restores the original decorations before deleting, and deletes last. */
  lemma DeleteCallOrder(id: string, original: Option<seq<Decoration>>, failAt: Option<nat>)
    ensures var done := Executed(DeletePlan(id, original), failAt);
            (forall k :: 0 <= k < |done| && done[k].DeleteOrder? ==>
               k == |DeletePlan(id, original)| - 1 && done[k].id == id
               && (original.Some? ==> done[0] == RestoreStock(original.value)))
            && (Completes(DeletePlan(id, original), failAt) ==> DeleteOrder(id) in done)
  {
  }

  datatype SubmitOutcome = Rejected | Saved | SaveFailed
  datatype DeleteOutcome = NothingToDelete | NotConfirmed | Deleted | DeleteFailed

  // ---------------------------------------------------------------- the form

  class OrderFormState {
    var alphabetStock: seq<StockLevel>
    var selectedAlphabets: seq<Decoration>
    var originalAlphabets: Option<seq<Decoration>>
    var currentOrderId: Option<string>
    var isOpen: bool
    /** Store calls made so far, oldest first. */
    var calls: seq<StoreCall>

    constructor ()
      ensures alphabetStock == [] && selectedAlphabets == [] && originalAlphabets == None
      ensures currentOrderId == None && !isOpen && calls == []
    {
      alphabetStock := [];
      selectedAlphabets := [];
      originalAlphabets := None;
      currentOrderId := None;
      isOpen := false;
      calls := [];
    }

    /** `updateAlphabetDropdown`: totals per selected character in a map, then one option per
        stock entry with something left. */
    method UpdateAlphabetDropdown() returns (options: seq<Choice>)
      ensures options == Choices(alphabetStock, selectedAlphabets)
    {
      var selectedMap: map<string, int> := map[];
      for i := 0 to |selectedAlphabets|
        invariant forall c :: c in selectedMap ==> selectedMap[c] == SelectedTotal(selectedAlphabets[..i], c)
        invariant forall c :: c !in selectedMap ==> SelectedTotal(selectedAlphabets[..i], c) == 0
      {
        var item := selectedAlphabets[i];
        assert selectedAlphabets[..i + 1][..i] == selectedAlphabets[..i];
        var sofar := if item.character in selectedMap then selectedMap[item.character] else 0;
        selectedMap := selectedMap[item.character := sofar + item.quantity];
      }
      assert selectedAlphabets[..|selectedAlphabets|] == selectedAlphabets;
      options := [];
      for k := 0 to |alphabetStock|
        invariant options == Choices(alphabetStock[..k], selectedAlphabets)
      {
        var s := alphabetStock[k];
        assert alphabetStock[..k + 1][..k] == alphabetStock[..k];
        var used := if s.character in selectedMap then selectedMap[s.character] else 0;
        var available := s.quantity - used;
        if available > 0 {
          options := options + [Choice(s.character, available)];
        }
      }
      assert alphabetStock[..|alphabetStock|] == alphabetStock;
    }

    /** `addSelectedAlphabet` with the dropdown's `character` and the quantity field as parsed
        (`|| 1`). */
    method AddSelectedAlphabet(character: string, parsedQuantity: Option<int>) returns (outcome: AddOutcome)
      modifies this
      ensures var quantity := OrDefault(parsedQuantity, 1);
              outcome == AddCheck(old(alphabetStock), old(selectedAlphabets), character, quantity)
              && selectedAlphabets == (if outcome == Added then Merge(old(selectedAlphabets), character, quantity)
                                       else old(selectedAlphabets))
      ensures alphabetStock == old(alphabetStock) && originalAlphabets == old(originalAlphabets)
      ensures currentOrderId == old(currentOrderId) && isOpen == old(isOpen) && calls == old(calls)
    {
      var quantity := OrDefault(parsedQuantity, 1);
      if character == "" {
        return Ignored;
      }
      var k := FindStock(alphabetStock, character);
      var alreadySelected := TotalSelected(selectedAlphabets, character);
      if k < |alphabetStock| && alreadySelected + quantity > alphabetStock[k].quantity {
        return NotEnoughStock(alphabetStock[k].quantity - alreadySelected);
      }
      var e := FindSelected(selectedAlphabets, character);
      if e < |selectedAlphabets| {
        selectedAlphabets := selectedAlphabets[e := Decoration(character, selectedAlphabets[e].quantity + quantity)];
      } else {
        selectedAlphabets := selectedAlphabets + [Decoration(character, quantity)];
      }
      outcome := Added;
    }

    /** `removeAlphabet`: splices one entry out of the selection. */
    method RemoveAlphabet(index: int)
      modifies this
      ensures selectedAlphabets == RemoveAt(old(selectedAlphabets), index)
      ensures alphabetStock == old(alphabetStock) && originalAlphabets == old(originalAlphabets)
      ensures currentOrderId == old(currentOrderId) && isOpen == old(isOpen) && calls == old(calls)
    {
      var s := SpliceStart(|selectedAlphabets|, index);
      if s < |selectedAlphabets| {
        selectedAlphabets := selectedAlphabets[..s] + selectedAlphabets[s + 1..];
      }
    }

    /** `getSelectedAlphabets`: the selection, or nothing (`null`) when it is empty. */
    function GetSelectedAlphabets(): (r: Option<seq<Decoration>>)
      reads this
      ensures r.None? <==> selectedAlphabets == []
      ensures r.Some? ==> r.value == selectedAlphabets
    {
      if |selectedAlphabets| > 0 then Some(selectedAlphabets) else None
    }

    /** `getFormData`: the field values with the current selection. */
    function GetFormData(input: FormInput): (data: FormData)
      reads this
      ensures data == FormDataOf(input, GetSelectedAlphabets())
      ensures data.alphabetDecorations.None? <==> selectedAlphabets == []
    {
      FormDataOf(input, GetSelectedAlphabets())
    }

    /** `openNew`: a blank draft for a new order, with the stock snapshot `stock` loaded. */
    method OpenNew(stock: seq<StockLevel>)
      modifies this
      ensures currentOrderId == None && originalAlphabets == None && selectedAlphabets == []
      ensures alphabetStock == stock && isOpen && calls == old(calls)
    {
      currentOrderId := None;
      originalAlphabets := None;
      selectedAlphabets := [];
      alphabetStock := stock;
      isOpen := true;
    }

    /** `openEdit`: remembers the id before looking the order up (`found`); when it exists, the
        original decorations are kept as a separate copy and the draft starts from them. */
    method OpenEdit(orderId: string, found: Option<Order>, stock: seq<StockLevel>)
      modifies this
      ensures currentOrderId == Some(orderId) && calls == old(calls)
      ensures found.None? ==> selectedAlphabets == old(selectedAlphabets) && originalAlphabets == old(originalAlphabets)
                              && alphabetStock == old(alphabetStock) && isOpen == old(isOpen)
      ensures found.Some? ==> originalAlphabets == found.value.alphabetDecorations
                              && selectedAlphabets == (if found.value.alphabetDecorations.Some? then found.value.alphabetDecorations.value else [])
                              && alphabetStock == stock && isOpen
    {
      currentOrderId := Some(orderId);
      if found.None? {
        return;
      }
      var order := found.value;
      originalAlphabets := order.alphabetDecorations;
      selectedAlphabets := if order.alphabetDecorations.Some? then order.alphabetDecorations.value else [];
      alphabetStock := stock;
      isOpen := true;
    }

    /** `close`: hides the form and forgets the draft. */
    method Close()
      modifies this
      ensures !isOpen && currentOrderId == None && originalAlphabets == None && selectedAlphabets == []
      ensures alphabetStock == old(alphabetStock) && calls == old(calls)
    {
      isOpen := false;
      currentOrderId := None;
      originalAlphabets := None;
      selectedAlphabets := [];
    }

    /** Records one store call; it throws when it is call number `failAt` of the operation. */
    method Perform(call: StoreCall, failAt: Option<nat>, step: nat) returns (ok: bool)
      modifies this
      ensures calls == old(calls) + [call] && ok == (failAt != Some(step))
      ensures alphabetStock == old(alphabetStock) && selectedAlphabets == old(selectedAlphabets)
      ensures originalAlphabets == old(originalAlphabets) && currentOrderId == old(currentOrderId) && isOpen == old(isOpen)
    {
      calls := calls + [call];
      ok := failAt != Some(step);
    }

    /** `handleSubmit`: a shipped order with a negative shipping cost is refused without any
        store call; otherwise the calls of `SubmitPlan` run in order until one throws, and the
        form closes only when all succeed. */
    method HandleSubmit(input: FormInput, failAt: Option<nat>) returns (outcome: SubmitOutcome)
      modifies this
      ensures var data := old(GetFormData(input));
              var plan := SubmitPlan(old(currentOrderId), old(originalAlphabets), data);
              if data.status == Shipped && data.shippingCost < 0 then
                outcome == Rejected && calls == old(calls)
              else
                calls == old(calls) + Executed(plan, failAt)
                && (outcome == Saved <==> Completes(plan, failAt))
                && outcome != Rejected
      ensures outcome == Saved ==> !isOpen && currentOrderId == None && originalAlphabets == None && selectedAlphabets == []
      ensures outcome != Saved ==> isOpen == old(isOpen) && currentOrderId == old(currentOrderId)
                                   && originalAlphabets == old(originalAlphabets) && selectedAlphabets == old(selectedAlphabets)
      ensures alphabetStock == old(alphabetStock)
    {
      var formData := GetFormData(input);
      if formData.status == Shipped && formData.shippingCost < 0 {
        return Rejected;
      }
      ghost var plan := SubmitPlan(currentOrderId, originalAlphabets, formData);
      ghost var start := calls;
      var step := 0;
      var ok := true;
      if IsSet(currentOrderId) {
        if originalAlphabets.Some? {
          ok := Perform(RestoreStock(originalAlphabets.value), failAt, step);
          step := step + 1;
        }
        if ok {
          ok := Perform(UpdateOrder(currentOrderId.value, formData), failAt, step);
          step := step + 1;
        }
      } else {
        ok := Perform(AddOrder(formData), failAt, step);
        step := step + 1;
      }
      assert calls == start + plan[..step];
      assert ok <==> failAt.None? || failAt.value >= step;
      assert !ok ==> failAt.value == step - 1;
      if ok && formData.alphabetDecorations.Some? {
        ok := Perform(DeductStock(formData.alphabetDecorations.value), failAt, step);
        step := step + 1;
      }
      assert ok ==> step == |plan|;
      assert calls == start + plan[..step];
      assert !ok ==> failAt.value == step - 1;
      if ok {
        Close();
        outcome := Saved;
      } else {
        outcome := SaveFailed;
      }
    }

    /** `handleDelete`: nothing without a current order or without confirmation; otherwise the
        calls of `DeletePlan` run in order until one throws, and the form closes when both
        succeed. */
    method HandleDelete(confirmed: bool, failAt: Option<nat>) returns (outcome: DeleteOutcome)
      modifies this
      ensures !IsSet(old(currentOrderId)) ==> outcome == NothingToDelete && calls == old(calls)
      ensures IsSet(old(currentOrderId)) && !confirmed ==> outcome == NotConfirmed && calls == old(calls)
      ensures IsSet(old(currentOrderId)) && confirmed ==>
                var plan := DeletePlan(old(currentOrderId).value, old(originalAlphabets));
                calls == old(calls) + Executed(plan, failAt)
                && (outcome == Deleted <==> Completes(plan, failAt))
                && (outcome == Deleted || outcome == DeleteFailed)
      ensures outcome == Deleted ==> !isOpen && currentOrderId == None && originalAlphabets == None && selectedAlphabets == []
      ensures outcome != Deleted ==> isOpen == old(isOpen) && currentOrderId == old(currentOrderId)
                                     && originalAlphabets == old(originalAlphabets) && selectedAlphabets == old(selectedAlphabets)
      ensures alphabetStock == old(alphabetStock)
    {
      if !IsSet(currentOrderId) {
        return NothingToDelete;
      }
      if !confirmed {
        return NotConfirmed;
      }
      var step := 0;
      var ok := true;
      if originalAlphabets.Some? {
        ok := Perform(RestoreStock(originalAlphabets.value), failAt, step);
        step := step + 1;
      }
      if ok {
        ok := Perform(DeleteOrder(currentOrderId.value), failAt, step);
      }
      if ok {
        Close();
        outcome := Deleted;
      } else {
        outcome := DeleteFailed;
      }
    }
  }
}
