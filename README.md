# Flower shop order calendar — a Dafny model

The application is a browser calendar for a small flower shop. Orders carry a shipping date, a price, a shipping cost, a deposit, a status (`deposit`, `ready_to_ship`, `shipped`) and an optional list of decoration letters (`{character, quantity}`) taken from a letter stock. Five components hold the logic modelled here:

- **Order store** (`database.js`). A keyed table of order records with add, get, update-by-merge, delete and shipping-date range queries.
- **Order form** (`orderForm.js`). Edits one order draft:
  - checks decoration letters against a snapshot of letter stock;
  - computes the balance;
  - calls the store in a fixed order on submit and on delete.
- **Month calendar** (`calendar.js`). Navigates year and month and lays out the grid of day cells with their order badges.
- **Revenue summary** (`summary.js`). Totals over a period's orders, the Sunday-to-Saturday week or calendar month around an anchor date, the ISO 8601 week number, and navigation by week or by month.
- **Letter stock page** (`alphabetStock.js`). Adds, adjusts and deletes stocked letters.

The model is organised in these Dafny modules:

| module | contents |
|---|---|
| `Types` | Shared records: `Order`, `Decoration`, the field-map `Record` the store keeps, and `OrDefault`, which models `parseInt(x) \|\| d`. |
| `Strings` | JavaScript string order (`<=` on strings, ECMA-262 section 7.2.13), decimal and zero-padded number text, and `trim` with the white-space set of ECMA-262 sections 12.2 and 12.3. |
| `Dates` | Local dates as `Date` shows them (0-based months) under the proleptic Gregorian calendar of ISO 8601:2004, section 3.2.1, and a day number `Ord`. `MakeDate` is `new Date(y, m, d)`: the month is carried into the year first, then the day offset is added. This is also what `setDate` and `setMonth` store, so out-of-range days and months roll over as in JavaScript (two limits of `Date` are left out, see below). |
| `DateKeys` | The `YYYY-MM-DD` key of a date. For four-digit years, string order on keys is date order. |
| `Database` | The store, a `class` over a sequence of records in ascending key order. |
| `OrderForm` | The form, a `class` over the draft's fields and a trace of store calls. |
| `Calendar` | The calendar, a `class` over the displayed year, month and orders. |
| `Summary` | The summary panel, a `class` over the view mode and anchor date, plus the statistics and period functions. |
| `AlphabetStock` | The stock page, a `class` over the stock list and a trace of store calls. |

Modelling conventions:

- Store functions that `orderForm.js` and `alphabetStock.js` call but that are defined elsewhere (restore, deduct, add, update or delete a stock letter) are not run; each call is appended to a `calls` trace.
- A call that throws is chosen by a parameter: `failAt`, the index of the failing call, or `ok`.
- Values that come from outside the component are parameters: the fresh id, the current time, `today`, the user's confirmation, what the store returns on a reload.

Month navigation in the summary uses `setMonth` on an anchor that may be a late day of the month. This is modelled exactly. From 31 January, "next" lands on 2 or 3 March and February is skipped; "previous" from there gives 2 or 3 February (`Summary.MonthNavigationOverflow`).

## Model

| member | source | states |
|---|---|---|
| Strings.LexLeTotal | database.js:106 | Any two strings compare one way or the other under JavaScript string order. |
| Strings.LexLeTransitive | database.js:117 | String order is transitive. |
| Strings.LexLeAntisymmetric | database.js:117 | Two strings each `<=` the other are equal. |
| Strings.FixedDigitsOrder | calendar.js:157 | Zero-padded decimals of one width compare as strings exactly as their values compare, and are equal exactly when the values are. |
| Strings.PadTwoDigits | calendar.js:157 | `String(n).padStart(2, '0')` for n < 100 is the two-digit zero-padded decimal of n. |
| Strings.Trim | alphabetStock.js:125 | `trim()` keeps one contiguous slice of the input, with only white space before and after it and no white space at either of its own ends. |
| Strings.TrimEmptyIff | alphabetStock.js:125-128 | The trimmed character is empty exactly when the input is all white space. |
| Dates.MakeDate | calendar.js:74 | `new Date(y, m, d)` is a valid date, `d - 1` days after the 1st of month m carried into the year. |
| Dates.MakeDateOfValid | summary.js:293 | A valid date built again from its parts is itself. |
| Dates.MakeDateOrd | summary.js:263 | `setDate(getDate() + k)` moves the date by exactly k days. |
| Dates.LastDayOfValidMonth | summary.js:61 | Day 0 of the next month is the last day of month m. |
| Dates.FirstOfValidMonth | summary.js:60 | Day 1 of month m is the 1st of month m. |
| Dates.LastDayOfMonth | calendar.js:74 | For any month index, day 0 of the next month is the last day of that month once carried into the year. |
| Dates.FirstOfMonth | calendar.js:81 | For any month index, day 1 is the 1st of that month once carried into the year. |
| Dates.SetMonthShift | summary.js:265 | `setMonth(getMonth() + k)` keeps the day when the target month has it, and otherwise rolls the excess days into the month after. |
| Dates.MakeDateNormalOverflow | summary.js:277 | A day past the end of the target month lands in the following month, on day `day - length`. |
| Dates.OrdOrder | summary.js:46-48 | Day numbers order dates chronologically and are equal only for equal dates. |
| Dates.WeekdayNext | calendar.js:81 | The weekday (0 = Sunday) of the next day is one more, modulo 7. |
| Dates.Weekday | calendar.js:81 | `getDay()` is in 0..6, with 0 for Sunday; `Dates.WeekdayNext` gives its day-to-day step. |
| DateKeys.DateKeyOrder | database.js:106 | For four-digit years, `YYYY-MM-DD` keys compare as strings exactly as the dates compare, and are equal exactly for equal dates. |
| DateKeys.DateKeyDigits | calendar.js:157 | For four-digit years the date string built from year, padded month and padded day is the fixed-width `YYYY-MM-DD` digits of the date. |
| Database.Lookup | database.js:71-79 | `get(id)` yields a record exactly when one is stored under that key, and the record found has that key. |
| Database.LookupAt | database.js:75 | In the sorted store each key occurs once, so any stored record is what its key finds. |
| Database.FilterByDate | database.js:113-118 | The range filter returns no more records than stored, each of them stored and with a string shipping date within both inclusive bounds. |
| Database.NewRecord | database.js:51-56 | The added record has every given field. Its id is the given one if any, else the fresh id. `createdAt` and `updatedAt` are both now. |
| Database.Merged | database.js:130-136 | The update keeps the stored id and creation stamp (none if there was none) and stamps `updatedAt`. Every other field is the given value if given, else the stored one. |
| Database.FilterByDateExact | database.js:113-118 | The range query returns exactly the stored records whose shipping date is a string within both inclusive bounds. |
| Database.FilterByDateKeepsOrder | database.js:115 | The range query keeps store order. |
| Database.MonthRangeMeansMonth | database.js:99-107 | For four-digit years, a date's key lies between the keys of the month's first and last day exactly when the date is in that month. |
| Database.FlowerDatabase.constructor | database.js:11-13 | The store starts empty. |
| Database.FlowerDatabase.GetOrder | database.js:71-80 | `getOrder` returns the record stored under the id, or nothing. |
| Database.FlowerDatabase.GetAllOrders | database.js:85-94 | `getAllOrders` returns the records in strictly ascending key order, and holds a key exactly when `getOrder` finds it. |
| Database.FlowerDatabase.AddOrder | database.js:50-66 | Fails on an invalid key, or on a key already stored, with nothing stored. Otherwise the new record is stored under its key, every other key finds what it found before, and the store stays sorted. |
| Database.FlowerDatabase.UpdateOrder | database.js:124-146 | A missing id fails with nothing stored. Otherwise the merged record replaces the stored one and every other key is unchanged. |
| Database.FlowerDatabase.DeleteOrder | database.js:151-161 | Afterwards the id finds nothing, every other key is unchanged, and the store shrinks by one exactly when the id was stored. |
| Database.FlowerDatabase.GetOrdersByDateRange | database.js:113-119 | The loop returns the range filter of the store. |
| Database.FlowerDatabase.GetOrdersByMonth | database.js:99-108 | The range filter between the keys of `new Date(y, m, 1)` and `new Date(y, m + 1, 0)`. |
| Database.InsertAbove | database.js:61 | Inserting at the first key not below the new one keeps the store strictly sorted. |
| Database.InsertLookup | database.js:61 | After an insert the new key finds the new record and every other key finds what it found before. |
| Database.ReplaceLookup | database.js:141 | Putting a record under an existing key keeps the store sorted and changes only that key's record. |
| Database.RemoveLookup | database.js:155 | Deleting a key keeps the store sorted; that key then finds nothing and the others are unchanged. |
| OrderForm.FindStock | orderForm.js:116 | The stock `find` returns the index of the first entry for the character, or the end. |
| OrderForm.FindSelected | orderForm.js:127 | The selection `find` returns the index of the first entry for the character, or the end. |
| OrderForm.TotalSelected | orderForm.js:117-119 | `filter` then `reduce` gives the total selected quantity of the character. |
| OrderForm.ChoicesExact | orderForm.js:88-95 | An option is offered exactly for a stock entry with stock minus selected total above zero, and it shows that difference. |
| OrderForm.ChoicesBounded | orderForm.js:83-95 | At most one option per stock entry, and every option offers a positive amount. |
| OrderForm.ChoicesInStockOrder | orderForm.js:88-95 | The options follow stock order. |
| OrderForm.Merge | orderForm.js:127-132 | An existing entry for the character grows by the quantity in place, all other entries unchanged. Otherwise exactly one entry is appended. |
| OrderForm.MergeTotals | orderForm.js:127-132 | An accepted add raises that character's selected total by the quantity and leaves every other total alone. |
| OrderForm.MergeKeepsDistinct | orderForm.js:127-132 | Adding keeps the selected characters distinct. |
| OrderForm.AddKeepsWithinStock | orderForm.js:116-132 | If every selected total was within stock, it still is after an accepted add. |
| OrderForm.AddCheckOutcome | orderForm.js:111-124 | An empty choice is ignored. An add is refused exactly for a stocked character whose selected total would exceed the first matching stock entry; the refusal reports stock minus selected, which is below the quantity asked for. Every other add is accepted, also for a character with no stock entry. |
| OrderForm.RemoveAt | orderForm.js:147 | `splice(index, 1)` removes only the entry at the start position, if any. Negative indices count from the end. The others keep their order. |
| OrderForm.RemoveKeepsDistinct | orderForm.js:147 | Removing keeps the selected characters distinct. |
| OrderForm.BalanceDisplay | orderForm.js:199-216 | The balance is price minus deposit, each `\|\| 0`. It reads "Paid" exactly for a positive price equal to the deposit, and "Overpaid" exactly for a positive price below the deposit. |
| OrderForm.BalanceMatchesFormData | orderForm.js:320 | The stored remaining balance ignores the shipping cost and agrees with the displayed state. |
| OrderForm.FormDataOf | orderForm.js:306-328 | Price, shipping cost and deposit are the parsed values or 0, and the remaining balance is price minus deposit. |
| OrderForm.Executed | orderForm.js:345-369 | The calls made when one throws form a prefix of the plan, and are the whole plan exactly when none before its end throws. |
| OrderForm.SubmitPlanShape | orderForm.js:345-359 | The planned calls write the order once: by update when editing (after the restore exactly when there are original decorations) and by add otherwise; the deduct is last exactly when the form has decorations. |
| OrderForm.DeletePlanShape | orderForm.js:381-386 | The planned calls delete the order last, after a restore of the original decorations exactly when there are any. |
| OrderForm.SubmitCallOrder | orderForm.js:345-359 | Whatever call throws: a deduct comes right after the order was written; an update happens only when editing, right after the restore when there was one; a restore comes first. A completed submit writes the order exactly once, by update when editing and by add otherwise. |
| OrderForm.DeleteCallOrder | orderForm.js:381-387 | A delete restores the original decorations first and deletes last. A completed delete deletes the order. |
| OrderForm.OrderFormState.constructor | orderForm.js:7-16 | The form starts with no draft, no stock and no calls. |
| OrderForm.OrderFormState.UpdateAlphabetDropdown | orderForm.js:79-99 | The map-and-filter loops produce exactly the `Choices` of the stock and the selection. |
| OrderForm.OrderFormState.AddSelectedAlphabet | orderForm.js:104-141 | The outcome is the availability check with quantity `parseInt \|\| 1`. The selection becomes the merge when accepted and is unchanged otherwise. Nothing else changes. |
| OrderForm.OrderFormState.RemoveAlphabet | orderForm.js:146-150 | The selection becomes its `splice(index, 1)`. Nothing else changes. |
| OrderForm.OrderFormState.GetSelectedAlphabets | orderForm.js:183-185 | Nothing (`null`) exactly for an empty selection, else the same entries. |
| OrderForm.OrderFormState.GetFormData | orderForm.js:306-328 | The form data carries the selection, or nothing exactly when it is empty. |
| OrderForm.OrderFormState.OpenNew | orderForm.js:221-243 | A blank draft with no id and no original decorations, and the loaded stock snapshot. |
| OrderForm.OrderFormState.OpenEdit | orderForm.js:248-288 | The id is remembered even when the order is not found; then nothing else changes. Otherwise the original decorations are kept and the draft starts from a separate copy of them. |
| OrderForm.OrderFormState.Close | orderForm.js:293-301 | Closes and forgets the id, the original and the selection. |
| OrderForm.OrderFormState.HandleSubmit | orderForm.js:333-370 | A shipped order with negative shipping cost is rejected with no call. Otherwise the calls made are exactly the executed prefix of the submit plan, the form saves exactly when the plan completes, and it closes only then. |
| OrderForm.OrderFormState.HandleDelete | orderForm.js:375-397 | Nothing without an id or without confirmation. Otherwise the calls made are exactly the executed prefix of restore-then-delete, and the form closes exactly when both succeed. |
| Calendar.MonthBefore | calendar.js:36-41 | The month before, kept in 0..11. |
| Calendar.MonthRoundTrip | calendar.js:36-54 | Next after previous, and previous after next, restore (year, month). |
| Calendar.GetMonthName | calendar.js:62-68 | A name exactly for month indices 0..11. |
| Calendar.MonthNamesDistinct | calendar.js:63-66 | Different months have different names. |
| Calendar.GetDaysInMonth | calendar.js:73-75 | The length of the month once carried into the year, 28..31. |
| Calendar.DaysInMonthGregorian | calendar.js:73-75 | February has 29 days exactly in leap years, otherwise 28. Every other month has 30 or 31. |
| Calendar.GetFirstDayOfMonth | calendar.js:80-82 | The weekday, 0..6 with 0 = Sunday, of the 1st of the month once carried into the year. |
| Calendar.FirstDayOfValidMonth | calendar.js:80-82 | For a month in 0..11 the number of leading blanks is the weekday of its 1st. |
| Calendar.GetOrdersForDate | calendar.js:87-89 | Exactly the orders shipping on that date string. |
| Calendar.OrdersForDateKeepsOrder | calendar.js:88 | The per-day filter keeps list order. |
| Calendar.DayListsDisjoint | calendar.js:156-158 | For four-digit years, no order shows on two different days of one month. |
| Calendar.GetStatusClass | calendar.js:94-101 | An empty class exactly for a status outside the three known ones. |
| Calendar.StatusClassesDistinct | calendar.js:95-99 | The three known statuses get three different classes. |
| Calendar.Truncate | calendar.js:189-192 | The text itself when it fits. Otherwise its first `maxLength - 1` characters (none when that is negative) followed by the suffix the source holds, three characters. |
| Calendar.TruncateLength | calendar.js:189-192 | With room for one character a shortened text is exactly `maxLength + 2` characters long (a customer name cut at 12 shows 14), never longer; truncating again changes nothing. |
| Calendar.BadgesOf | calendar.js:163-167 | One badge per order, in order. |
| Calendar.DayBadges | calendar.js:162-171 | `min(3, n)` badges for the first orders, and a "+(n-3) more" count exactly when n > 3. |
| Calendar.DayCellFor | calendar.js:156-180 | A day cell carries its day number and the zero-padded key, is "today" exactly on today's date, and shows the badges and "+N more" count of exactly the orders shipping on that key. |
| Calendar.DayColumn | calendar.js:151-157 | The cell of a day sits in the column of its weekday. |
| Calendar.GridFitsSixRows | calendar.js:151-157 | Blanks plus days never exceed 37 cells. |
| Calendar.LayOut | calendar.js:151-180 | The two loops produce `firstDay` blanks and then the cell of each day 1..daysInMonth in order. |
| Calendar.CalendarComponent.constructor | calendar.js:7-15 | The calendar shows today's month with no orders. |
| Calendar.CalendarComponent.LoadOrders | calendar.js:28-31 | The fetched orders replace the loaded ones; the month is unchanged. |
| Calendar.CalendarComponent.PreviousMonth | calendar.js:36-44 | Moves to the month before (December of the previous year after January) and loads its orders. |
| Calendar.CalendarComponent.NextMonth | calendar.js:49-57 | Moves to the month after (January of the next year after December) and loads its orders. |
| Calendar.CalendarComponent.RenderDays | calendar.js:139-184 | The grid for the displayed month: as many blanks as the 1st's weekday, then every day's cell. |
| Summary.CalculateStats | summary.js:72-104 | The loop's totals: the order count, the sum of prices, shipping summed only for shipped orders, net = revenue - shipping, and each bucket's count and net revenue over its status. |
| Summary.BucketCountsBounded | summary.js:97-100 | Bucket counts add up to at most the order count, and exactly to it when every status has a bucket. |
| Summary.NetRevenueSplits | summary.js:93-100 | Net revenue is the three buckets' revenue plus that of orders with another status. |
| Summary.UnshippedCostIgnored | summary.js:89-91 | The shipping cost of an unshipped order never reaches the totals. |
| Summary.WeekStart | summary.js:44-46 | The week start is a Sunday, exactly `getDay()` days before the date. |
| Summary.WeekEnd | summary.js:47-48 | The week end is six days after the start. |
| Summary.WeekRangeBounds | summary.js:42-48 | The week runs Sunday to Saturday and contains the date. |
| Summary.GetWeekRange | summary.js:42-54 | The range is the keys of a Sunday at most six days before the date and of the day six days after that Sunday. |
| Summary.WeekStartIdempotent | summary.js:44-46 | The week of a week's start starts there. |
| Summary.MonthStart | summary.js:60 | The month range starts on the 1st of the anchor's month. |
| Summary.MonthEnd | summary.js:61 | The month range ends on the last day of the anchor's month. |
| Summary.GetMonthRange | summary.js:59-67 | The range is the keys of the 1st and of the last day of the anchor's month. |
| Summary.MonthRangeBounds | summary.js:59-61 | A date lies between the month's first and last day exactly when it is in the anchor's month. |
| Summary.RangesOrdered | summary.js:50-53 | For four-digit years the range keys are ordered. A date's key lies between them exactly when the date is in that week, or in that month. |
| Summary.IsoWeekday | summary.js:33 | `getUTCDay() \|\| 7`: 1..7, congruent to the weekday modulo 7. |
| Summary.IsoThursday | summary.js:34 | The Thursday of the Monday-to-Sunday week, `4 - isoWeekday` days away. |
| Summary.YearStart | summary.js:35 | 1 January of the Thursday's year. |
| Summary.GetWeekNumber | summary.js:31-37 | The ISO 8601 week number (ISO 8601:2004, section 4.1.4) is in 1..53 and counts the Thursday's week within the Thursday's year. |
| Summary.WeekNumberMondayFirst | summary.js:33-34 | Days Monday to Sunday of one week share a Thursday and so a week number. |
| Summary.FourthOfJanuaryInWeekOne | summary.js:31-37 | 4 January is always in week 1. |
| Summary.SummaryComponent.constructor | summary.js:7-11 | The panel starts in month view anchored on today. |
| Summary.SummaryComponent.ToggleView | summary.js:23-26 | Changes the view mode and nothing else. |
| Summary.SummaryComponent.SetDate | summary.js:292-294 | Replaces the anchor and keeps the view. |
| Summary.SummaryComponent.PreviousPeriod | summary.js:261-268 | Week view: `setDate(getDate() - 7)`. Month view: `setMonth(getMonth() - 1)`, normalised as JavaScript does. |
| Summary.SummaryComponent.NextPeriod | summary.js:273-280 | Week view: `setDate(getDate() + 7)`. Month view: `setMonth(getMonth() + 1)`, normalised as JavaScript does. |
| Summary.WeekStepMovesWeek | summary.js:263 | A week step moves the anchor exactly seven days, keeps its weekday, and moves the displayed week by seven days. |
| Summary.WeekNextThenPrevious | summary.js:263-275 | In week view, next then previous returns to the same anchor. |
| Summary.WeekPreviousThenNext | summary.js:263-275 | In week view, previous then next returns to the same anchor. |
| Summary.MonthNavigationEarlyDay | summary.js:265-277 | An anchor on day 28 or earlier moves exactly one calendar month, and next then previous returns to it. |
| Summary.MonthNavigationOverflow | summary.js:277 | From 31 January, next lands on 2 or 3 March (by the leap rule), and previous from there on 2 or 3 February. |
| AlphabetStock.Clamped | alphabetStock.js:202 | `Math.max(0, quantity + delta)`: never negative, and exactly the sum unless that is negative. |
| AlphabetStock.Adjusted | alphabetStock.js:199-206 | Only the item with that id changes, and only in its quantity. An unknown id changes nothing. |
| AlphabetStock.AdjustedKeepsInvariants | alphabetStock.js:202 | Adjusting keeps characters and ids unique and quantities non-negative. |
| AlphabetStock.Removed | alphabetStock.js:225-226 | The item with that id is gone and the rest keep their order. An unknown id changes nothing. |
| AlphabetStock.RemovedIsGone | alphabetStock.js:225-226 | With unique ids, no item with the id remains. |
| AlphabetStock.RemovedKeepsInvariants | alphabetStock.js:225-226 | Deleting keeps characters and ids unique and quantities non-negative. |
| AlphabetStock.AppendKeepsInvariants | alphabetStock.js:134-143 | Appending a character not yet stocked keeps characters unique; with a fresh id and a non-negative quantity, the other invariants hold too. |
| AlphabetStock.AlphabetStockManager.constructor | alphabetStock.js:7-12 | The page starts with an empty list and no calls. |
| AlphabetStock.AlphabetStockManager.LoadStock | alphabetStock.js:153-156 | The list becomes what the store returns. |
| AlphabetStock.AlphabetStockManager.HandleAddSubmit | alphabetStock.js:122-148 | Refused exactly when the trimmed character is empty, or already stocked; then no call is made. Otherwise one add call is made with quantity `parseInt \|\| 0`, and on success the list ends with the new item. |
| AlphabetStock.AlphabetStockManager.AdjustQuantity | alphabetStock.js:198-212 | An unknown id does nothing. Otherwise the clamped quantity is sent to the store and, on success, written into that item alone. |
| AlphabetStock.AlphabetStockManager.DeleteItem | alphabetStock.js:217-231 | An unknown id or an unconfirmed delete does nothing. Otherwise one delete call is made and, on success, the item is removed. |

## Left out

- `Dates.MakeDate`: `new Date(y, m, d)` and `Date.UTC` read a year in 0..99 as 1900 + y, and any date more than 8.64e15 ms from 1970 is an Invalid Date. The model applies neither. `Calendar.GetDaysInMonth`, `Calendar.GetFirstDayOfMonth`, `Summary.MonthStart`, `Summary.MonthEnd`, `Database.FlowerDatabase.GetOrdersByMonth` and `Summary.GetWeekNumber` inherit this: for those years and ranges they describe the proleptic Gregorian date, not what the browser computes. `setDate` and `setMonth` do not apply the 1900 offset, so the navigation members are unaffected by the first difference.
- `Database.FlowerDatabase.AddOrder`: only string ids are modelled as keys. The store's key path also accepts a number that a caller puts in `id`, but the model reports `InvalidKey` for it. No caller in this model passes an id on add.
- `app.js` is not part of this model. It holds page wiring, the version check and its patches to calendar navigation.
- HTML generation and DOM handling are left out: templates, listeners, modals, focus, `escapeHtml`. The grid, the badges and the dropdown are modelled as data in the order they are drawn. `alert` and `confirm` are left out; a confirmation is a boolean parameter.
- The IndexedDB plumbing is left out: opening the database, transactions and request callbacks. So are store errors other than a duplicate or invalid key on add and a missing id on update. `generateId` and the ISO timestamps are parameters (`freshId`, `now`).
- Store functions that `orderForm.js` and `alphabetStock.js` call but that are defined elsewhere are not executed:
  - restoring and deducting decoration stock;
  - adding, updating and deleting a stock letter;
  - reading the stock.

  They are recorded as trace entries with their arguments. No clamping or restore semantics is assumed for them.
- Async interleavings are left out. Only the sequential order of awaited calls is modelled, with one chosen call throwing. A reload after a successful call is modelled by its result: the appended item in `HandleAddSubmit`, the removed item in `DeleteItem`, the fetched orders in the calendar.
- Floating-point money is left out: amounts are whole numbers, and `parseFloat`/`parseInt` are an optional parsed integer with the `|| default` rule (`Types.OrDefault`). Locale formatting is left out (`toLocaleString`, `formatCurrency`, `formatDateRange` and the summary's `getMonthName`).
- `toISOString()` turns a local midnight into a UTC date, which shifts the range keys by a day east of UTC. This is left out: every key is the local date written as `YYYY-MM-DD`, as the calendar writes it.
- The suffix `truncate` appends is, in the source file, the UTF-8 bytes of an ellipsis decoded twice: the three characters U+00E2 U+20AC U+00A6. `Calendar.Ellipsis` is those three characters, so a shortened name is two characters longer than the limit (`Calendar.TruncateLength`).
- `Calendar.Truncate`: `length` and `substr` count UTF-16 code units, while the model counts code points. A name with characters outside the Basic Multilingual Plane is cut at a different place, and may be judged to fit when JavaScript would cut it.
- JavaScript compares strings by UTF-16 code units; the model compares characters by code point. The two agree on the digit-and-dash keys compared here.
- A record whose shipping date is not a string is never in a date range. The model does not model JavaScript's number-to-string coercion in those comparisons.
- The key-order facts (`DateKeys.DateKeyOrder`, `Summary.RangesOrdered`, `Database.MonthRangeMeansMonth`, `Calendar.DayListsDisjoint`) are stated only for four-digit years, where `YYYY-MM-DD` string order is date order; the date facts they rest on hold for every year.
- The shallow copy in `openEdit` shares entry objects between the loaded order and the draft. The model has value semantics and so does not capture that sharing; the deep copy of the original decorations is modelled as a separate value.
- Form fields the model never reads are left out: platform, flower count and colour, use date, ASAP, address and notes.
- `onSave` and `onDelete` callbacks and re-rendering after each operation are left out.
- `getStatusClass` looks the status up in an object literal, so a status such as `constructor` would find an inherited member. Such statuses are modelled as unknown.
- An update of a stored record without `createdAt` writes an explicit `undefined`; the model leaves the field absent.
- The summary's `render` is left out. It fetches the period's orders with the week or month range and passes them to `calculateStats`. Only the pieces it combines are modelled.
