/**
 * The records of the backend (its JSON request/response types) and the rows of
 * its SQLite tables. Identifiers are strings (UUIDs in the running system).
 */
module Schema {
  import opened Wrappers

  type MachineId = string
  type SensorId = string
  type OperatorId = string
  type StockId = string
  type MaintenanceId = string

  /** The status every new maintenance record is stored with, whatever was submitted. */
  const Scheduled: string := "scheduled"

  /** The status a machine is reported with on a day it has maintenance. */
  const UnderMaintenance: string := "Em manutenção"

  /** Errors a handler reports. */
  datatype Error =
    | NotFound                        // a handler's existence check failed (404)
    | UniqueViolation(table: string)  // a primary key clashed inside a transaction (500)

  // ---- request / response records ----

  datatype Sensor = Sensor(id: SensorId, name: string, sensorType: string)

  datatype Machine = Machine(
    id: MachineId,
    name: string,
    model: string,
    manufacturer: string,
    year: int,
    status: string,
    operatorId: string,   // "" when there is none
    sensors: seq<Sensor>)

  datatype UsedStockItem = UsedStockItem(stockId: StockId, quantity: int)

  datatype Maintenance = Maintenance(
    id: MaintenanceId,
    machineId: MachineId,
    date: string,
    description: string,
    status: string,
    usedStock: seq<UsedStockItem>)

  // ---- table rows (the key of each table is the key of its map) ----

  /** A row of `machines`: the table has no model, manufacturer or year column. */
  datatype MachineRow = MachineRow(name: string, status: string, operatorId: Option<OperatorId>)

  /** A row of `sensors`. */
  datatype SensorRow = SensorRow(name: string, sensorType: string, machineId: MachineId)

  /** A row of `stock` (the floating-point `value` column is not modelled). */
  datatype StockItem = StockItem(name: string, quantity: int, unit: string, location: string)

  /** A row of `maintenance`; its usage rows live in `maintenance_stock`. */
  datatype MaintenanceRow = MaintenanceRow(machineId: MachineId, date: string, description: string, status: string)

  /** No two elements of `xs` are equal. */
  predicate Distinct<T(==)>(xs: seq<T>) {
    forall i, j | 0 <= i < j < |xs| :: xs[i] != xs[j]
  }
}
