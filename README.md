# Coffee shop order table

A Dafny model of the order table of the coffee shop program (`main.py`).
The program keeps one sheet with the columns OrderID, OrderTime, Status and
Details. Each of its operations loads the whole sheet, changes it and stores
it back:

- `create_order` appends a row with status "Pending" and returns the new id;
- `update_order_status` sets Status on every row whose OrderID matches;
- `get_orders_by_status` returns the rows with a given Status, in sheet order;
- `cook_order` and `serve_order` set the status to "Completed" and
  "Delivered" through `update_order_status`;
- on a first run, when no file exists, `initialize_excel` creates the sheet
  with headers and no row; it runs every time the program is loaded.

The model has two modules:

- `OrderTable` (order_table.dfy): the `Row` datatype, the masked update
  `SetStatus` and the filter `Filter` as functions on `seq<Row>`, and the
  lemmas about them.
- `OrderSheet` (order_sheet.dfy): class `Sheet`, whose field `rows` is the
  sheet and whose methods change it in place. Each method is specified by the
  functions of `OrderTable`. The uuid and the timestamp of a new order are
  parameters of `CreateOrder`. A precondition says the id is not already in
  the sheet; it stands in for the uniqueness of `uuid4`. The client method
  `ServeBeforeCook` shows that an order can go from "Pending" to "Delivered"
  without being "Completed" first.

The program's code is what is modelled. It does not check transitions, and
it has no tokens, groups or prices, and no "Unapproved" or "Declined"
states. Any status string can overwrite any other.

## Model

| member | source | states |
|---|---|---|
| OrderSheet.Sheet.constructor | main.py:12-16 | a first run, when no file exists, starts from a sheet with no rows |
| OrderSheet.Sheet.CreateOrder | main.py:19-29 | the sheet becomes the old rows plus one row at the end: the given id and time, status "Pending", the given details; the returned id is that id; with a fresh id, the new row is the only one with that id, and unique ids stay unique |
| OrderSheet.Sheet.UpdateOrderStatus | main.py:32-35 | the new sheet is `SetStatus(old rows, id, status)`; the loop applies the mask row by row |
| OrderSheet.Sheet.GetOrdersByStatus | main.py:38-40 | returns `Filter(rows, status)`: a row is in the result exactly when it is in the sheet with that status; does not change the sheet |
| OrderSheet.Sheet.ServeOrder | main.py:43-44 | same new sheet as updating the id to "Delivered" |
| OrderSheet.Sheet.CookOrder | main.py:47-48 | same new sheet as updating the id to "Completed" |
| OrderTable.SetStatus | main.py:34 | the masked update keeps the number of rows |
| OrderTable.SetStatusAt | main.py:34 | row k keeps OrderID, OrderTime and Details; its status becomes the new one exactly when its OrderID matches; a non-matching row is unchanged |
| OrderTable.SetStatusAbsent | main.py:34 | an id that no row holds leaves the table unchanged |
| OrderTable.SetStatusOverwrite | main.py:34 | two updates of one id equal the second alone (the last write wins) |
| OrderTable.SetStatusIdempotent | main.py:34 | applying the same (id, status) twice equals applying it once |
| OrderTable.SetStatusKeepsIds | main.py:34 | the OrderID column is unchanged, so unique ids stay unique |
| OrderTable.SetStatusIgnoresCurrent | main.py:43-48 | a matching row gets the requested status whatever it had before, so serving a "Pending" order makes it "Delivered" |
| OrderTable.Filter | main.py:40 | the filter is no longer than the table, and every row in it is a row of the table with the requested status |
| OrderTable.FilterComplete | main.py:40 | every table row with the requested status is in the filter |
| OrderTable.FilterSingle | main.py:40 | a one-row table filters to that row if its status matches, else to nothing |
| OrderTable.FilterConcat | main.py:40 | the filter of a concatenation is the concatenation of the filters, so table order is kept |
| OrderTable.FilterAppend | main.py:27 | a newly appended row appears last in the filter for its status and in no other |
| OrderTable.FiltersDisjoint | main.py:40 | filters for two different statuses share no row |
| OrderTable.FiltersPartition | main.py:40 | for distinct statuses covering every status in the table, the filter sizes add up to the table length |

## Left out

- Spreadsheet persistence: reading and writing the file through pandas, and
  the existing-file branch of `initialize_excel` (main.py:10-11), which keeps
  the stored rows. The constructor is a first run; a later run is a `Sheet`
  whose `rows` holds the stored rows. The file is the field `rows`. The
  file round trip can also change values: an empty Details cell is read
  back as NaN, and numeric-looking text as a number.
  The model keeps strings as they were written.
- `uuid.uuid4()` and `datetime.now()` (main.py:22-23). They are parameters
  of `CreateOrder`. The freshness of the uuid is a precondition.
- The interactive menu `main()`, which uses `input` and `print`
  (main.py:54-93). It is user interface.
- Concurrent processes doing read-modify-write on the same file. The program
  has no locking, and the model is sequential.
- The row index labels that a pandas filter result carries. The model
  returns the rows only.
