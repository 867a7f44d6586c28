/** Values shared by the order calendar's components: orders as the views read them,
    decoration entries, stock items and the field maps the order store keeps. */
module Types {

  datatype Option<T> = None | Some(value: T)

  /** JavaScript's `parseInt(text) || fallback` and `parseFloat(text) || fallback`:
      `parsed` is None when the text does not parse (NaN); NaN and 0 are both falsy. */
  function OrDefault(parsed: Option<int>, fallback: int): int
  {
    if parsed.Some? && parsed.value != 0 then parsed.value else fallback
  }

  /** The order status select; any other string is kept as `OtherStatus`. */
  datatype Status = Deposit | ReadyToShip | Shipped | OtherStatus(name: string)

  /** One `{character, quantity}` entry of an order's `alphabetDecorations`. */
  datatype Decoration = Decoration(character: string, quantity: int)

  /** An order as the calendar and the summary read it. Amounts are whole baht. */
  datatype Order = Order(
    id: string,
    shippingDate: string,
    customerName: string,
    price: int,
    shippingCost: int,
    depositAmount: int,
    status: Status,
    alphabetDecorations: Option<seq<Decoration>>)

  /** A field value of a stored record. */
  datatype Value = Null | Bool(b: bool) | Num(n: int) | Str(s: string) | Decorations(items: seq<Decoration>)

  /** A stored object: field name to value; a spread `{...a, ...b}` is the map union `a + b`. */
  type Record = map<string, Value>
}
