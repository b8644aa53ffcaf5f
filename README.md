# M4chineMind backend: maintenance–stock ledger and machine store

This project models the Go backend of M4chineMind (`backend/main.go`), an
administration tool for industrial machines, their sensors and operators, a
stock of spare parts, and maintenance records that consume stock. The backend
keeps everything in SQLite tables. The model keeps each table as a Dafny map
from primary key to row:

- `stock` (stock id to item with its integer quantity),
- `maintenance` (record id to machine, date, description and status),
- `maintenance_stock` (record id to its usage rows, each a stock id and a quantity),
- `machines`, `sensors` and `operators`.

The primary key `(maintenanceId, stockId)` of `maintenance_stock` is the
invariant `StockLedger.Valid`.

The files:

- `schema.dfy` (module `Schema`): the request/response records, the table rows and the two status constants.
- `ledger.dfy` (module `StockLedger`): what creating, updating, deleting and reading a maintenance record does to the ledger tables, as closed-form functions. It also holds the lemmas about those functions: exact deduction and restoration per stock item, create-then-delete round trip, conservation of on-hand plus reserved quantity, and the cases where the code keeps no such balance.
- `fleet.dfy` (module `Fleet`): the effects on machines, sensors and operators, and the read-time status override ("Em manutenção" when the machine has maintenance dated today).
- `store.dfy` (module `Backend`): the class `Store`, one field per table, with one method per handler.
  - A handler that runs in a transaction works on local copies of the tables and loops over the request entries row by row.
  - It assigns the copies back only when every statement succeeded. That is the commit.
  - A failing statement returns before any field is assigned. That is the rollback.
  - Each method's `ensures` ties the committed state to the closed-form function of the old state.

Fresh UUIDs and today's date are parameters. Errors are `NotFound` (a handler's
existence check) and `UniqueViolation(table)` (a primary key clash on an INSERT,
which the source reports as a 500 with SQLite's message). Most of these INSERTs
run inside a transaction. The one in createMachineSensor is a single statement
outside any transaction.

The model follows the code, including where it departs from what a stock ledger would be expected to do:

- Creating maintenance performs no sufficiency check, so a quantity can go negative (`StockLedger.CreateMayGoNegative`).
- Updating maintenance never restores or re-deducts stock. So on-hand plus reserved is kept only when the new entries reserve as much of an item as the old rows did (`StockLedger.UpdateConservesIff`, `StockLedger.UpdateMovesNoStock`).
- Update and delete do not check that the record exists. Updating an unknown id stores usage rows against an id that has no record, and deducts nothing. Deleting an id with no record and no usage rows succeeds and changes nothing (`StockLedger.DeleteUnknownIsNoop`). Deleting an id that has only such usage rows restores their quantities, so stock goes up by amounts that were never deducted (`StockLedger.UpdateUnknownThenDeleteRaisesStock`).
- Machine, stock and maintenance references are never validated.
- The create response echoes the submitted status, while `"scheduled"` is what is stored.
- The machine responses echo the submitted sensor ids. The loop in the source assigns each fresh id to a copy of the sensor.

## Model

| member | source | states |
|---|---|---|
| `Backend.Store.CreateMaintenance` | backend/main.go:914-982 | Succeeds exactly when `Create` does, and then commits exactly `Create`'s tables: the record with status "scheduled", the usage rows and the deducted stock. The response is the request with the new id. On failure every ledger table is unchanged, and the error is `Create`'s. |
| `Backend.InsertUsage` | backend/main.go:952-975 | The create loop over the entries inserts the usage rows in order and deducts each entry's quantity from its stock item on a copy. It fails exactly when a stock id repeats, either among the stored rows or among the entries. On success it returns the rows `stored + items` and the stock `Deducted(onHand, items)`. |
| `StockLedger.CreateFailsExactlyOnKeyClash` | backend/main.go:928-958 | A create fails if and only if the record id exists, or the request names a stock id twice, or the request names a stock id already in a usage row stored against the id. |
| `StockLedger.CreateRejectsRepeatedStockId` | backend/main.go:952-958 | Two entries with the same stock id make the create fail on the `maintenance_stock` primary key, or on the `maintenance` key if the id exists. Nothing is stored. |
| `StockLedger.CreateStoresScheduled` | backend/main.go:936-941 | After a create under a fresh id, the record reads back with status "scheduled" whatever status was submitted, and with exactly the request's entries as its usage rows. |
| `StockLedger.CreateDeductsEachEntry` | backend/main.go:961-974 | After a successful create, each entry's existing stock item is lower by exactly that entry's quantity. No stock item is added, so an unknown stock id changes nothing. Every item no entry names is unchanged. |
| `StockLedger.CreateMayGoNegative` | backend/main.go:961-969 | There is no sufficiency check: 3 bolts on hand and a request for 5 gives a successful create and a quantity of -2. |
| `StockLedger.CreateKeepsOtherRecords` | backend/main.go:936-953 | A create leaves every other record and its usage rows as they were. |
| `StockLedger.CreateConserves` | backend/main.go:943-975 | A successful create keeps, for every stock item, the on-hand quantity plus the quantity reserved by all stored usage rows. |
| `Backend.Store.GetMaintenance` | backend/main.go:984-1014 | Returns none for an unknown id. Otherwise it returns the record reassembled from its row and its usage rows, collected one by one. This equals `Lookup`. |
| `Backend.Store.ListMaintenances` | backend/main.go:625-664 | Returns every record once, each equal to its `Lookup`, and no others. |
| `Backend.Store.UpdateMaintenance` | backend/main.go:1016-1066 | Succeeds exactly when `Update` does, and then commits exactly `Update`'s tables. On failure the ledger is unchanged. Stock is not in its frame. The response is the request as submitted. |
| `StockLedger.UpdateOverwrites` | backend/main.go:1029-1059 | An update fails if and only if the request names a stock id twice. On success no stock quantity changes and the id's usage rows are exactly the request's entries. A record that exists reads back with the request's fields, including its status. A missing id still has no record. Every other record and its usage rows are unchanged. |
| `StockLedger.UpdateConservesIff` | backend/main.go:1036-1059 | An update keeps an item's on-hand plus reserved quantity if and only if the new entries reserve as much of it as the old rows did. |
| `StockLedger.UpdateMovesNoStock` | backend/main.go:1043-1060 | Swapping 7 reserved bolts for 2 bolts and 1 nut, with no nut on hand, succeeds and leaves both quantities unchanged. |
| `Backend.Store.DeleteMaintenance` | backend/main.go:1068-1128 | Restores each usage row's quantity with a loop over the rows, then removes the rows and the record. The committed tables are exactly `Delete`'s. |
| `StockLedger.DeleteRestoresEachRow` | backend/main.go:1077-1120 | After delete, each usage row's stock item, if it still exists, is higher by exactly that row's quantity. No stock item is added and other items are unchanged. The record reads back as none and has no usage rows. Every other record and its usage rows are unchanged. |
| `StockLedger.UpdateUnknownThenDeleteRaisesStock` | backend/main.go:1097-1104 | Updating an id with no record stores its entries as usage rows, and deleting that id then raises each named stock item by the entry's quantity. No quantity was ever deducted, and the maintenance table is unchanged. |
| `StockLedger.DeleteUnknownIsNoop` | backend/main.go:1079-1127 | Deleting an id with no record and no usage rows leaves every ledger table unchanged. The handler still reports success. |
| `StockLedger.DeleteConserves` | backend/main.go:1097-1120 | Delete keeps every stock item's on-hand plus reserved quantity. |
| `StockLedger.CreateThenDelete` | backend/main.go:1097-1104 | A successful create under an id with no usage rows, followed by a delete of that id, restores all three ledger tables, including every stock quantity. |
| `StockLedger.RestoredDeducted` | backend/main.go:1098 | Restoring the rows that were deducted gives back the original stock table. |
| `Backend.Store.DeleteStockItem` | backend/main.go:1243-1250 | Fails with NotFound for an unknown item, which is the handler's check at lines 1148-1158. Otherwise it removes exactly that item and leaves usage rows naming it in place. |
| `Backend.Store.DeleteOperator` | backend/main.go:359-373 | NotFound for an unknown operator, which is the handler's check. Otherwise it nulls the operator on machines through `Unassigned` and deletes the operator. |
| `Fleet.Unassigned` | backend/main.go:361-365 | No machine is deleted and no machine refers to the operator afterwards. Exactly the machines that referred to it change their operator, which becomes NULL. No name or status changes. |
| `Backend.Store.CreateMachine` | backend/main.go:431-470 | Succeeds if and only if the id is new and the fresh sensor ids are distinct and unused. It then stores the row and the sensors. On failure it reports the clashing table and nothing changes. |
| `Backend.InsertSensors` | backend/main.go:452-460 | The sensor-insert loop succeeds if and only if no fresh id is taken or repeated. It then yields `AddSensors`. |
| `Fleet.AddSensors` | backend/main.go:549-557 | The inserted keys are exactly the existing keys plus the fresh ids. |
| `Fleet.AddSensorsContents` | backend/main.go:549-556 | Each submitted sensor is stored under its fresh id with its name and type. Existing sensors are kept. |
| `Backend.Store.UpdateMachine` | backend/main.go:522-567 | NotFound for an unknown machine. Otherwise it overwrites the row and replaces the machine's sensors with fresh ones in one transaction, or it changes nothing when a fresh id clashes. |
| `Fleet.ReplaceSensors` | backend/main.go:542-557 | After the replacement the machine has exactly the fresh sensors, each with the submitted name and type. Every other machine keeps the same sensor ids, and each of those rows is unchanged. |
| `Fleet.WithoutSensorsOf` | backend/main.go:571 | The deleted machine has no sensors left. All other sensors are kept unchanged. |
| `Backend.Store.DeleteMachine` | backend/main.go:569-584 | NotFound for an unknown machine. Otherwise it deletes its sensors, then the machine. Maintenance records are outside its frame. |
| `Backend.Store.CreateMachineSensor` | backend/main.go:607-623 | NotFound for an unknown machine and a key clash for a taken id. Otherwise it adds exactly one sensor row, and the response carries the fresh id. |
| `Backend.Store.SensorsOf` | backend/main.go:586-605 | The query loop returns each sensor of the machine exactly once, as stored. It has no existence check of its own. |
| `Backend.Store.GetMachineSensors` | backend/main.go:211-226 | NotFound for an unknown machine, from the machine handler's check. Otherwise it returns each sensor of the machine exactly once, as stored. |
| `Backend.Store.GetMachine` | backend/main.go:472-520 | NotFound for an unknown machine. Otherwise it reports the machine with model, manufacturer and year empty, the operator as "" when NULL, its sensors, and the status after the override. |
| `Backend.Store.ListMachines` | backend/main.go:375-429 | Reports every machine exactly once, each as `GetMachine` would. |
| `Fleet.ReportedStatusIff` | backend/main.go:395-405 | A machine reads as "Em manutenção" if and only if it has a maintenance record dated today or that is its stored status. Without such a record the stored status is shown. |
| `Fleet.CreateTodayShowsUnderMaintenance` | backend/main.go:488-498 | After scheduling maintenance dated today, the machine reads as "Em manutenção". |
| `Fleet.DeleteLastTodayRestoresStatus` | backend/main.go:491-497 | Deleting a machine's only maintenance record dated today gives it back its stored status. |

## Left out

- HTTP routing, CORS, JSON decoding and encoding, and status codes are not modelled. Neither are `main` and `createTables`: the `Store` constructor starts from empty tables. A body that fails to decode (400) never reaches the model.
- The global mutex and its uneven use across handlers are not modelled. The model is single-threaded.
- `uuid.New()` and `time.Now()` are not modelled. Fresh ids and today's date are parameters, and `CreateMachine`/`UpdateMachine` take one fresh id per submitted sensor.
- Storage failures are not modelled. That covers failed `db.Begin`, `Prepare`, `Scan` and `Query` calls, and the ignored `tx.Commit()` errors of createMaintenance and updateMaintenance. Only primary-key clashes fail a statement in the model. So `deleteOperator` and `deleteMachine`, which run two statements outside a transaction, always complete both.
- Foreign keys are never enforced, so no reference is checked.
- Quantities are unbounded integers. SQLite's 64-bit INTEGER and its overflow to REAL in `quantity - ?` are not modelled.
- The floating-point `value` column of `stock` is not modelled.
- The model returns usage rows in insertion order. The queries have no ORDER BY, so SQL leaves that order open. SQLite most likely answers `WHERE maintenanceId = ?` through the index of the primary key `(maintenanceId, stockId)` (backend/main.go:168), which would return the rows sorted by stock id. The model's order is a choice and likely differs from the program's. The set of rows and each row's quantity do not depend on it. Sensors and machines are listed in an order the model leaves open.
- A record with no usage rows encodes `usedStock` as JSON `null` in getMaintenance and as `[]` in getMaintenances. The model returns the empty sequence for both.
- The report handlers (lines 699-806) are not modelled. They are SQL `strftime` filtering over joins.
- The unrouted `listMaintenances`, `reportUsedStock` and `reportScheduledMaintenances` (lines 808-912) are not modelled.
- The operator handlers `listOperators`, `createOperator`, `getOperator` and `updateOperator` are not modelled. Neither are the stock handlers `listStock`, `createStockItem`, `getStockItem` and `updateStockItem`. Each is a single-row statement with no effect on another table.
