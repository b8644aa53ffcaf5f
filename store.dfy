/**
 * The backend's handlers over its SQLite tables. Each table is a field; a
 * handler that runs in a transaction works on local copies of the tables and
 * assigns them back only when every statement succeeded (commit), so a failed
 * statement leaves every field as it was (rollback). Fresh UUIDs and today's
 * date are parameters.
 */
module Backend {
  import opened Wrappers
  import opened Schema
  import opened StockLedger
  import opened Fleet

  /**
   * Inserts, in order, one sensor row per submitted sensor under the matching
   * fresh id into a copy of `base`; none when an INSERT would repeat a key.
   */
  method InsertSensors(base: SensorTable, mid: MachineId, reqs: seq<Sensor>, ids: seq<SensorId>)
    returns (r: Option<SensorTable>)
    requires |reqs| == |ids|
    ensures r.Some? <==> CanInsert(base, ids)
    ensures r.Some? ==> r.value == AddSensors(base, mid, reqs, ids)
  {
    var table := base;
    var i := 0;
    while i < |ids|
      invariant 0 <= i <= |ids|
      invariant CanInsert(base, ids[..i])
      invariant table == AddSensors(base, mid, reqs[..i], ids[..i])
    {
      CanInsertStep(base, ids, i);
      if ids[i] in table {
        return None;
      }
      AddSensorsStep(base, mid, reqs, ids, i);
      table := table[ids[i] := RowFor(reqs[i], mid)];
      i := i + 1;
    }
    assert ids[..i] == ids && reqs[..i] == reqs;
    r := Some(table);
  }

  /**
   * The loop of createMaintenance inside its transaction: for each entry in
   * order, insert a usage row after the rows `stored` against the record (none
   * when the pair repeats a key) and deduct the entry's quantity from its stock
   * item in a copy of `onHand` (a no-op for an unknown stock id). Returns the
   * rows and the stock table to commit.
   */
  method InsertUsage(stored: seq<UsedStockItem>, onHand: map<StockId, StockItem>, items: seq<UsedStockItem>)
    returns (r: Option<(seq<UsedStockItem>, map<StockId, StockItem>)>)
    requires Distinct(StockIds(stored))
    ensures r.Some? <==> Distinct(StockIds(stored + items))
    ensures r.Some? ==> r.value.0 == stored + items && r.value.1 == Deducted(onHand, items)
  {
    var rows, stock := stored, onHand;
    ghost var all := stored + items;
    var i := 0;
    while i < |items|
      invariant 0 <= i <= |items|
      invariant rows == stored + items[..i] == all[..|stored| + i]
      invariant Distinct(StockIds(rows))
      invariant stock == Deducted(onHand, items[..i])
    {
      var item := items[i];
      if item.stockId in StockIds(rows) {
        ClashInPrefix(all, |stored| + i);
        return None;
      }
      DistinctAppend(rows, item);
      DeductedStep(onHand, items[..i], item);
      assert items[..i + 1] == items[..i] + [item];
      rows := rows + [item];
      if item.stockId in stock {
        stock := stock[item.stockId := stock[item.stockId].(quantity := stock[item.stockId].quantity - item.quantity)];
      }
      i := i + 1;
    }
    assert items[..i] == items;
    r := Some((rows, stock));
  }

  class Store {
    var operators: map<OperatorId, string>
    var machines: MachineTable
    var sensors: SensorTable
    var stock: map<StockId, StockItem>
    var maintenance: map<MaintenanceId, MaintenanceRow>
    var usage: UsageTable

    /** The tables of the maintenance-stock ledger. */
    function State(): Ledger
      reads this
    {
      Ledger(stock, maintenance, usage)
    }

    /** The primary key of maintenance_stock holds. */
    predicate Valid()
      reads this
    {
      StockLedger.Valid(State())
    }

    /** createTables on a fresh database: every table is empty. */
    constructor ()
      ensures Valid()
      ensures operators == map[] && machines == map[] && sensors == map[]
      ensures State() == Ledger(map[], map[], map[])
    {
      operators, machines, sensors := map[], map[], map[];
      stock, maintenance, usage := map[], map[], map[];
    }

    // -------------------------------------------------------------------------
    // Maintenance and stock
    // -------------------------------------------------------------------------

    /**
     * createMaintenance under the fresh id `id`. The response echoes the request
     * with its id set, keeping the submitted status although "scheduled" is
     * what is stored.
     */
    method CreateMaintenance(id: MaintenanceId, req: Maintenance) returns (r: Result<Maintenance, Error>)
      requires Valid()
      modifies this`stock, this`maintenance, this`usage
      ensures Valid()
      ensures r.Ok? <==> Create(old(State()), id, req).Ok?
      ensures r.Ok? ==> State() == Create(old(State()), id, req).value && r.value == req.(id := id)
      ensures r.Err? ==> State() == old(State()) && r.error == Create(old(State()), id, req).error
    {
      if id in maintenance {
        return Err(UniqueViolation("maintenance"));
      }
      var records := maintenance[id := MaintenanceRow(req.machineId, req.date, req.description, Scheduled)];
      var applied := InsertUsage(UsageOf(usage, id), stock, req.usedStock);
      if applied.None? {
        return Err(UniqueViolation("maintenance_stock"));
      }
      ghost var l := State();
      assert Create(l, id, req) == Ok(Ledger(applied.value.1, records, SetRows(usage, id, applied.value.0)));
      CreateKeepsValid(l, id, req);
      maintenance, usage, stock := records, SetRows(usage, id, applied.value.0), applied.value.1;
      r := Ok(req.(id := id));
    }

    /** getMaintenance: the record with its usage rows collected one by one. */
    method GetMaintenance(id: MaintenanceId) returns (r: Option<Maintenance>)
      ensures r == Lookup(State(), id)
    {
      if id !in maintenance {
        return None;
      }
      var row := maintenance[id];
      var rows := UsageOf(usage, id);
      var used: seq<UsedStockItem> := [];
      var i := 0;
      while i < |rows|
        invariant 0 <= i <= |rows|
        invariant used == rows[..i]
      {
        used := used + [rows[i]];
        i := i + 1;
      }
      assert rows[..i] == rows;
      r := Some(Maintenance(id, row.machineId, row.date, row.description, row.status, used));
    }

    /** getMaintenances: every record with its usage rows, each once, in an order SQL leaves open. */
    method ListMaintenances() returns (out: seq<Maintenance>)
      ensures |out| == |maintenance|
      ensures forall v | v in out :: Lookup(State(), v.id) == Some(v)
      ensures forall id | id in maintenance :: exists v | v in out :: v.id == id
    {
      var remaining := maintenance.Keys;
      out := [];
      while remaining != {}
        invariant remaining <= maintenance.Keys
        invariant |out| == |maintenance.Keys - remaining|
        invariant forall v | v in out :: Lookup(State(), v.id) == Some(v)
        invariant forall id | id in maintenance.Keys - remaining :: exists v | v in out :: v.id == id
        decreases remaining
      {
        var id :| id in remaining;
        assert maintenance.Keys - (remaining - {id}) == (maintenance.Keys - remaining) + {id};
        var v := GetMaintenance(id);
        out := out + [v.value];
        remaining := remaining - {id};
      }
    }

    /**
     * updateMaintenance. The id is not checked for existence and no stock
     * quantity changes; the response echoes the request as submitted.
     */
    method UpdateMaintenance(id: MaintenanceId, req: Maintenance) returns (r: Result<Maintenance, Error>)
      requires Valid()
      modifies this`maintenance, this`usage
      ensures Valid()
      ensures r.Ok? <==> Update(old(State()), id, req).Ok?
      ensures r.Ok? ==> State() == Update(old(State()), id, req).value && r.value == req
      ensures r.Err? ==> State() == old(State()) && r.error == Update(old(State()), id, req).error
    {
      var records := maintenance;
      if id in records {
        records := records[id := MaintenanceRow(req.machineId, req.date, req.description, req.status)];
      }
      var rows: seq<UsedStockItem> := [];
      var items := req.usedStock;
      var i := 0;
      while i < |items|
        modifies {}
        invariant 0 <= i <= |items|
        invariant rows == items[..i]
        invariant Distinct(StockIds(rows))
      {
        var item := items[i];
        if item.stockId in StockIds(rows) {
          ClashInPrefix(items, i);
          return Err(UniqueViolation("maintenance_stock"));
        }
        DistinctAppend(rows, item);
        assert items[..i + 1] == items[..i] + [item];
        rows := rows + [item];
        i := i + 1;
      }
      assert items[..i] == items;
      maintenance, usage := records, SetRows(usage, id, rows);
      r := Ok(req);
    }

    /** deleteMaintenance: restore each usage row's quantity, then drop the rows and the record. */
    method DeleteMaintenance(id: MaintenanceId)
      requires Valid()
      modifies this`stock, this`maintenance, this`usage
      ensures Valid()
      ensures State() == Delete(old(State()), id)
    {
      var rows, before := UsageOf(usage, id), stock;
      var onHand := before;
      var i := 0;
      while i < |rows|
        modifies {}
        invariant 0 <= i <= |rows|
        invariant onHand == Restored(before, rows[..i])
      {
        var item := rows[i];
        RestoredStep(before, rows[..i], item);
        assert rows[..i + 1] == rows[..i] + [item];
        if item.stockId in onHand {
          onHand := onHand[item.stockId := onHand[item.stockId].(quantity := onHand[item.stockId].quantity + item.quantity)];
        }
        i := i + 1;
      }
      assert rows[..i] == rows;
      stock, usage, maintenance := onHand, usage - {id}, maintenance - {id};
    }

    /**
     * deleteStockItem behind the stock item handler's existence check. Usage
     * rows naming the item are left in place.
     */
    method DeleteStockItem(id: StockId) returns (r: Outcome<Error>)
      requires Valid()
      modifies this`stock
      ensures Valid()
      ensures r == (if id in old(stock) then Pass else Fail(NotFound))
      ensures stock == old(stock) - {id}
    {
      if id !in stock {
        return Fail(NotFound);
      }
      stock := stock - {id};
      r := Pass;
    }

    // -------------------------------------------------------------------------
    // Operators, machines and sensors
    // -------------------------------------------------------------------------

    /**
     * deleteOperator behind the operator handler's existence check: unassign
     * the operator from every machine, then delete it. No machine is deleted.
     */
    method DeleteOperator(id: OperatorId) returns (r: Outcome<Error>)
      modifies this`machines, this`operators
      ensures r == (if id in old(operators) then Pass else Fail(NotFound))
      ensures r.Pass? ==> machines == Unassigned(old(machines), id) && operators == old(operators) - {id}
      ensures r.Fail? ==> machines == old(machines) && operators == old(operators)
    {
      if id !in operators {
        return Fail(NotFound);
      }
      machines := Unassigned(machines, id);
      operators := operators - {id};
      r := Pass;
    }

    /** The row createMachine and updateMachine write: the operator id is stored as given, "" included. */
    static function RowOf(m: Machine): MachineRow {
      MachineRow(m.name, m.status, Some(m.operatorId))
    }

    /**
     * createMachine under the fresh id `id`, with one fresh id per submitted
     * sensor. The response echoes the request with its id set; its sensors keep
     * the submitted ids.
     */
    method CreateMachine(id: MachineId, m: Machine, sensorIds: seq<SensorId>) returns (r: Result<Machine, Error>)
      requires |sensorIds| == |m.sensors|
      modifies this`machines, this`sensors
      ensures r.Ok? <==> id !in old(machines) && CanInsert(old(sensors), sensorIds)
      ensures r.Ok? ==>
        && machines == old(machines)[id := RowOf(m)]
        && sensors == AddSensors(old(sensors), id, m.sensors, sensorIds)
        && r.value == m.(id := id)
      ensures r.Err? ==>
        && machines == old(machines) && sensors == old(sensors)
        && r.error == UniqueViolation(if id in old(machines) then "machines" else "sensors")
    {
      if id in machines {
        return Err(UniqueViolation("machines"));
      }
      var attached := InsertSensors(sensors, id, m.sensors, sensorIds);
      if attached.None? {
        return Err(UniqueViolation("sensors"));
      }
      machines, sensors := machines[id := RowOf(m)], attached.value;
      r := Ok(m.(id := id));
    }

    /**
     * updateMachine behind the machine handler's existence check: overwrite the
     * row, delete the machine's sensors and attach the submitted ones under
     * fresh ids, all in one transaction.
     */
    method UpdateMachine(id: MachineId, m: Machine, sensorIds: seq<SensorId>) returns (r: Result<Machine, Error>)
      requires |sensorIds| == |m.sensors|
      modifies this`machines, this`sensors
      ensures r.Ok? <==> id in old(machines) && CanInsert(WithoutSensorsOf(old(sensors), id), sensorIds)
      ensures r.Ok? ==>
        && machines == old(machines)[id := RowOf(m)]
        && sensors == AddSensors(WithoutSensorsOf(old(sensors), id), id, m.sensors, sensorIds)
        && r.value == m.(id := id)
      ensures r.Err? ==>
        && machines == old(machines) && sensors == old(sensors)
        && r.error == (if id in old(machines) then UniqueViolation("sensors") else NotFound)
    {
      if id !in machines {
        return Err(NotFound);
      }
      var rows := machines[id := RowOf(m)];
      var attached := InsertSensors(WithoutSensorsOf(sensors, id), id, m.sensors, sensorIds);
      if attached.None? {
        return Err(UniqueViolation("sensors"));
      }
      machines, sensors := rows, attached.value;
      r := Ok(m.(id := id));
    }

    /**
     * deleteMachine behind the machine handler's existence check: its sensors
     * first, then the machine. Maintenance records naming it are kept.
     */
    method DeleteMachine(id: MachineId) returns (r: Outcome<Error>)
      modifies this`machines, this`sensors
      ensures r == (if id in old(machines) then Pass else Fail(NotFound))
      ensures r.Pass? ==> sensors == WithoutSensorsOf(old(sensors), id) && machines == old(machines) - {id}
      ensures r.Fail? ==> machines == old(machines) && sensors == old(sensors)
    {
      if id !in machines {
        return Fail(NotFound);
      }
      sensors := WithoutSensorsOf(sensors, id);
      machines := machines - {id};
      r := Pass;
    }

    /** createMachineSensor behind the machine handler's existence check, under the fresh id `sid`. */
    method CreateMachineSensor(mid: MachineId, s: Sensor, sid: SensorId) returns (r: Result<Sensor, Error>)
      modifies this`sensors
      ensures r.Ok? <==> mid in old(machines) && sid !in old(sensors)
      ensures r.Ok? ==> sensors == old(sensors)[sid := RowFor(s, mid)] && r.value == s.(id := sid)
      ensures r.Err? ==>
        && sensors == old(sensors)
        && r.error == (if mid in old(machines) then UniqueViolation("sensors") else NotFound)
    {
      if mid !in machines {
        return Err(NotFound);
      }
      if sid in sensors {
        return Err(UniqueViolation("sensors"));
      }
      sensors := sensors[sid := RowFor(s, mid)];
      r := Ok(s.(id := sid));
    }

    /** The sensor record a row of `sensors` reads back as. */
    function SensorAt(sid: SensorId): Sensor
      reads this
      requires sid in sensors
    {
      Sensor(sid, sensors[sid].name, sensors[sid].sensorType)
    }

    /**
     * getMachineSensors: one record per sensor of machine `mid`, each once, in
     * the order the rows come back (which SQL leaves open).
     */
    method SensorsOf(mid: MachineId) returns (out: seq<Sensor>)
      ensures |out| == |SensorIdsOf(sensors, mid)|
      ensures forall s :: s in out <==> s.id in SensorIdsOf(sensors, mid) && s == SensorAt(s.id)
    {
      var ids := SensorIdsOf(sensors, mid);
      var remaining := ids;
      out := [];
      while remaining != {}
        invariant remaining <= ids
        invariant |out| == |ids - remaining|
        invariant forall s :: s in out <==> s.id in ids - remaining && s == SensorAt(s.id)
        decreases remaining
      {
        var sid :| sid in remaining;
        assert ids - (remaining - {sid}) == (ids - remaining) + {sid};
        out := out + [SensorAt(sid)];
        remaining := remaining - {sid};
      }
    }

    /** GET /api/machines/{id}/sensors: NotFound for an unknown machine, otherwise its sensors. */
    method GetMachineSensors(mid: MachineId) returns (r: Result<seq<Sensor>, Error>)
      ensures r.Ok? <==> mid in machines
      ensures r.Err? ==> r.error == NotFound
      ensures r.Ok? ==> |r.value| == |SensorIdsOf(sensors, mid)|
      ensures r.Ok? ==> forall s :: s in r.value <==> s.id in SensorIdsOf(sensors, mid) && s == SensorAt(s.id)
    {
      if mid !in machines {
        return Err(NotFound);
      }
      var attached := SensorsOf(mid);
      r := Ok(attached);
    }

    /** `v` is how listMachines and getMachine report machine `v.id` on `today`. */
    ghost predicate Reports(v: Machine, today: string)
      reads this
    {
      && v.id in machines
      && v.name == machines[v.id].name
      && v.model == "" && v.manufacturer == "" && v.year == 0
      && v.status == ReportedStatus(maintenance, v.id, machines[v.id].status, today)
      && v.operatorId == OperatorText(machines[v.id].operatorId)
      && |v.sensors| == |SensorIdsOf(sensors, v.id)|
      && (forall s :: s in v.sensors <==> s.id in SensorIdsOf(sensors, v.id) && s == SensorAt(s.id))
    }

    /** getMachine behind the machine handler's existence check, on date `today`. */
    method GetMachine(id: MachineId, today: string) returns (r: Result<Machine, Error>)
      ensures r.Ok? <==> id in machines
      ensures r.Ok? ==> r.value.id == id && Reports(r.value, today)
      ensures r.Err? ==> r.error == NotFound
    {
      if id !in machines {
        return Err(NotFound);
      }
      var row := machines[id];
      var status := row.status;
      if HasMaintenanceOn(maintenance, id, today) {
        status := UnderMaintenance;
      }
      var attached := SensorsOf(id);
      r := Ok(Machine(id, row.name, "", "", 0, status, OperatorText(row.operatorId), attached));
    }

    /** listMachines on date `today`: every machine reported once, in an order SQL leaves open. */
    method ListMachines(today: string) returns (out: seq<Machine>)
      ensures |out| == |machines|
      ensures forall v | v in out :: Reports(v, today)
      ensures forall id | id in machines :: exists v | v in out :: v.id == id
    {
      var remaining := machines.Keys;
      out := [];
      while remaining != {}
        invariant remaining <= machines.Keys
        invariant |out| == |machines.Keys - remaining|
        invariant forall v | v in out :: Reports(v, today)
        invariant forall id | id in machines.Keys - remaining :: exists v | v in out :: v.id == id
        decreases remaining
      {
        var id :| id in remaining;
        assert machines.Keys - (remaining - {id}) == (machines.Keys - remaining) + {id};
        var v := GetMachine(id, today);
        out := out + [v.value];
        remaining := remaining - {id};
      }
    }
  }
}
