# Labubu order tracker: a Dafny model of the order collection

The tracker is one page (`app/page.tsx`). The user records purchases that they plan to resell. Each purchase is an order with a product name, an order link, a tracking number, the price paid, the resell value and a derived profit. The page lists the orders in a table, edits or deletes them, and exports the table as a PDF. This project models the logic underneath that page:

- **Orders** (`orders.dfy`): the `Order` record and the pure collection transforms the handlers apply. Add appends (`[...prev, newOrder]`). Save edit maps by id (`prev.map`). Delete filters by id (`prev.filter`). Begin edit finds by id (`orders.find`).
- **Home** (`home.dfy`): class `HomePage` holds the component's state fields: `orders`, the local-storage snapshot, the two dialog flags, `editingOrderId` and the five edit-buffer fields. Its methods are the event handlers. Each updates those fields and keeps the invariant `Valid()`: every profit agrees with its prices, ids are distinct, the snapshot is `JSON.stringify(orders)` as `Storage.Serialize` models it, and the edit dialog is open exactly while an edit is in progress.
- **Storage** (`storage.dfy`): the local-storage snapshot `JSON.stringify(orders)` (app/page.tsx:39-41). JSON has no NaN, so a NaN price or profit is written as `null`. The snapshot reads back as the collection exactly when every number in it is finite.
- **Text** (`text.dfy`): JavaScript's `String.prototype.trim`, which the add form applies to its text fields.
- **ExportName** (`export_name.dfy`): `pad`, `getFormattedTimestamp` and the export file name `labubu-orders_MM-DD-YYYY_HH:MM:SS.pdf`. A parser for the file name is proved to invert it.

Numbers are modelled as `Num = Finite(real) | NaN`, and profit is exact real subtraction. A price input is an `<input type="number">`, whose value is either blank or a number. It is modelled as `Option<real>`, with `None` for blank. The add form reads a blank price as 0 (`parseFloat(value || '0')`). The edit form reads a blank price as NaN (`parseFloat(value)`), so a saved record can carry a NaN price and a NaN profit. The model keeps that difference as the code has it.

The things the page takes from the browser become parameters. The new record's id (`Date.now().toString()`) is an argument of `HandleAdd`, which requires it to be fresh. The clock reading for the file name is a `LocalTime` argument. The add form's field values are a `Form` argument.

The model follows the code in these details:
- The add form refuses a blank product name or order link (app/page.tsx:65). Save edit neither trims nor checks them (app/page.tsx:107-108), so an edit can leave them blank.
- `if (!editingOrderId)` tests JavaScript truthiness (app/page.tsx:101). An edited id of `""` is treated like none, and save edit then does nothing. `Home.Truthy` models this.
- Save edit with an id no record carries leaves `orders` unchanged but still closes the dialog (app/page.tsx:117-118).

## Model

| member | source | states |
|---|---|---|
| Text.TrimStartSpec | app/page.tsx:60 | the result is the suffix of the input that starts at its first non-space character, and everything dropped is space |
| Text.TrimEndSpec | app/page.tsx:60 | the result is the prefix of the input that ends at its last non-space character, and everything dropped is space |
| Text.TrimTight | app/page.tsx:60-64 | the trimmed field is no longer than the input and has no space at either end |
| Text.TrimIsMiddle | app/page.tsx:60-64 | what trim keeps is a contiguous piece of the input, with only space before and after it |
| Text.TrimUnique | app/page.tsx:60-64 | any split of a string into space, a middle with no space at either end, and space yields that middle under trim |
| Text.TrimIdempotent | app/page.tsx:60-64 | trimming twice is the same as trimming once |
| Text.TrimEmptyIffAllSpace | app/page.tsx:65 | a field is blank after trimming exactly when it consists only of space characters |
| Orders.Minus | app/page.tsx:73 | the difference is finite exactly when both operands are, and then adding back the subtrahend gives the minuend |
| Orders.ParseAddField | app/page.tsx:62-63 | the add form always reads a finite price: the number shown, or 0 for a blank field |
| Orders.ParseEditField | app/page.tsx:109-111 | the edit form reads NaN exactly for a blank field, and otherwise the number shown |
| Orders.ShowField | app/page.tsx:93-94 | writing a price into the edit buffer and reading it back gives the same number, NaN included |
| Orders.NewOrder | app/page.tsx:60-75 | the new record carries the given id, the trimmed product name, order link and tracking number of the form, and the form's prices read with blank as 0; the name and link are non-empty with no space at either end, the prices are finite and `profit == resellValue - pricePaid` |
| Orders.AddOrder | app/page.tsx:58-76 | an add with a blank product name or order link leaves the collection as it was; otherwise it grows by one, every earlier record is unchanged and the new record is last |
| Orders.FirstIndex | app/page.tsx:88 | the index found carries the id, and no earlier record does; it is the length when no record carries the id |
| Orders.Find | app/page.tsx:88-89 | find fails exactly when no record carries the id; otherwise it returns the first record of the collection that carries the id |
| Orders.FormOf | app/page.tsx:91-95 | the edit buffer holds the record's text fields, and its price fields read back as the record's prices |
| Orders.Apply | app/page.tsx:105-113 | the edited record keeps its id, takes the buffer's product name, order link and tracking number, takes the buffer's prices read with blank as NaN, and satisfies `profit == resellValue - pricePaid`; its profit is NaN exactly when a price field of the buffer is blank |
| Orders.UpdateById | app/page.tsx:102-116 | save edit keeps the length; each record with the id gets the buffer's fields, and every other record is unchanged |
| Orders.RemoveById | app/page.tsx:150 | delete never lengthens the collection and leaves no record with the id |
| Orders.RemoveKeepsOthers | app/page.tsx:150 | every record delete keeps comes from the input, and every input record with another id is kept |
| Orders.RemoveKeepsAbsent | app/page.tsx:150 | delete introduces no id that the input lacks |
| Orders.AppendPreservesInvariants | app/page.tsx:76 | appending a consistent record keeps every profit consistent, and appending one with a new id keeps ids distinct |
| Orders.AddPreservesInvariants | app/page.tsx:67-76 | add keeps every profit consistent, and with a fresh id it keeps ids distinct |
| Orders.RemoveAbsent | app/page.tsx:150 | deleting an id no record carries changes nothing |
| Orders.RemoveConcat | app/page.tsx:150 | delete distributes over concatenation, so the records that remain keep their relative order |
| Orders.RemoveUnique | app/page.tsx:150 | with distinct ids, deleting the id of the record at position k removes exactly that record and keeps the others in order |
| Orders.RemovePreservesConsistency | app/page.tsx:150 | delete keeps every profit consistent |
| Orders.RemovePreservesUniqueIds | app/page.tsx:150 | delete keeps ids distinct |
| Orders.UpdateAbsent | app/page.tsx:102-116 | saving an edit to an id no record carries changes nothing |
| Orders.UpdatePreservesInvariants | app/page.tsx:102-116 | save edit keeps the sequence of ids, keeps every profit consistent and keeps ids distinct |
| Orders.UpdateUnique | app/page.tsx:102-116 | with distinct ids, save edit replaces exactly the record at the edited id's position |
| Orders.ApplyFormOf | app/page.tsx:105-113 | saving a consistent record's own buffer gives back the record |
| Orders.FindUnique | app/page.tsx:88 | with distinct ids, find on a record's id returns that record |
| Orders.EditRoundTrip | app/page.tsx:87-119 | beginning an edit and saving the untouched buffer leaves the collection unchanged |
| Orders.AddThenDelete | app/page.tsx:150 | deleting the record just added under a fresh id restores the collection |
| ExportName.NatToString | app/page.tsx:46 | the text of a non-negative integer is a non-empty string of decimal digits with no leading zero, one digit long exactly below 10 and at most two long exactly below 100 |
| ExportName.IntToString | app/page.tsx:53-55 | the year's text is non-empty, and it is all digits exactly when the year is non-negative |
| ExportName.PadStart | app/page.tsx:46 | `padStart` gives the requested width, or the input's length if that is greater; the input stays at the end and only fill characters come before it |
| ExportName.Pad | app/page.tsx:46 | from 10 upward, `pad` leaves the number's digits as they are |
| ExportName.NatToStringRoundTrip | app/page.tsx:46 | the digits of `toString` denote the number |
| ExportName.IntToStringRoundTrip | app/page.tsx:53-55 | the year's text reads back as the year, negative years included |
| ExportName.PadTwoDigits | app/page.tsx:46 | for 0 to 99, `pad` yields exactly two decimal digits denoting the number |
| ExportName.TimestampRoundTrip | app/page.tsx:43-56 | every clock reading within range is recovered from its timestamp, with the month 1-based in the text and 0-based in the reading |
| ExportName.FileNameRoundTrip | app/page.tsx:144 | every clock reading within range is recovered from `"labubu-orders_" + timestamp + ".pdf"` |
| ExportName.FileNameInjective | app/page.tsx:144 | two different clock readings never give the same file name |
| Storage.SerializeSpec | app/page.tsx:40 | the snapshot holds one stored record per record of the collection, in the same order, each the record with NaN numbers written as `null` |
| Storage.Decode | app/page.tsx:36 | a stored record reads back as a record exactly when its price, resell value and profit are all numbers, none `null` |
| Storage.RestoreSerialize | app/page.tsx:36-41 | the snapshot reads back as the collection exactly when every price and profit is finite, and otherwise does not read back as records |
| Storage.AddKeepsFinite | app/page.tsx:58-76 | an add keeps every number of the collection finite, so its snapshot still reads back |
| Storage.BlankEditLosesSnapshot | app/page.tsx:102-116 | saving an edit with a blank price field to an id in the collection leaves a snapshot that does not read back as records |
| Home.HomePage.constructor | app/page.tsx:18-26 | the page starts with no orders, both dialogs closed, no edit in progress and an empty buffer |
| Home.HomePage.OpenAddModal | app/page.tsx:158 | "New Order" opens the add dialog |
| Home.HomePage.CancelAdd | app/page.tsx:207 | cancelling closes the add dialog |
| Home.HomePage.HandleAdd | app/page.tsx:58-85 | a rejected add changes nothing. A successful add appends the new record, writes the serialized collection to storage and closes the add dialog. The invariant is kept |
| Home.HomePage.HandleEdit | app/page.tsx:87-97 | an unknown id changes no state. A known id sets `editingOrderId`, fills the buffer from the first record with that id and opens the dialog. `orders` is untouched |
| Home.HomePage.ChangeEditBuffer | app/page.tsx:293-319 | typing into the edit form changes only the buffer |
| Home.HomePage.HandleSaveEdit | app/page.tsx:99-119 | with no truthy edited id, nothing changes. Otherwise the buffer is written into the records with that id and the sequence of ids is kept. The dialog then closes and `editingOrderId` becomes null |
| Home.HomePage.CancelEdit | app/page.tsx:325 | cancelling closes the edit dialog and clears `editingOrderId` |
| Home.HomePage.HandleDelete | app/page.tsx:149-151 | delete filters the collection and writes it, serialized, to storage. An absent id changes nothing, and the id of the record at position k removes exactly that record |
| Home.EditWithoutChangesKeepsOrders | app/page.tsx:87-119 | opening an edit and saving without typing leaves `orders` as it was |

## Left out

- Loading from local storage at mount (app/page.tsx:34-37) is not modelled as a handler, because it runs `JSON.parse` on whatever the browser holds, and the code does not catch a parse failure. `Storage.Restore` models only what parsing the page's own snapshot gives back. After a save edit with a blank price field, that snapshot holds `null` numbers (`Storage.BlankEditLosesSnapshot`). On reload, `toFixed(2)` on such a `null` (app/page.tsx:254-256) would throw; the rendering is not modelled.
- ExportName.NatToString: it covers integers below 10^21 only as JavaScript writes them; from 10^21 up `toString` uses exponential form ("1e+21"), which the model does not produce. No clock component or year that `Date` yields comes near that bound.
- PDF export (app/page.tsx:121-143, 145-146) is left out, because it calls foreign code: the dynamic imports of `jspdf` and `jspdf-autotable`, DOM cloning, removal of `.actions-col`, `alert` and `doc.save`. Only the file name is modelled.
- The clock is not read. `Date.now()` (app/page.tsx:68) becomes the `id` parameter of `HandleAdd`, and `new Date()` (app/page.tsx:44) becomes the `LocalTime` parameter.
- Text parsing of numbers is not modelled. A number field is blank or holds the number it shows, and `parseFloat` is modelled only for those two cases. `toFixed(2)` display (app/page.tsx:254-256) is left out too.
- Orders.Minus: subtraction is exact over the reals, not IEEE-754 double arithmetic with rounding. Infinities are not modelled.
- Clearing the add form's input elements (app/page.tsx:79-83) is DOM mutation and is left out. Null element refs (`?.` and `|| ''` at app/page.tsx:60-64) are not modelled.
- The parcelsapp tracking link (app/page.tsx:259), the JSX markup and the styling are display only.
- Home.HomePage.HandleAdd: it requires that the new id is not already in use, which stands in for the uniqueness of `Date.now()`.
