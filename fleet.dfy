/**
 * The machine side of the store: the `machines`, `sensors` and `operators`
 * tables, the cross-table effects of deleting an operator or a machine and of
 * replacing a machine's sensors, and the status a machine is reported with.
 */
module Fleet {
  import opened Wrappers
  import opened Schema
  import StockLedger

  type MachineTable = map<MachineId, MachineRow>
  type SensorTable = map<SensorId, SensorRow>

  /**
   * The machines after `UPDATE machines SET operatorId = NULL WHERE operatorId = op`:
   * no machine is removed, no machine refers to `op` any more, and exactly the
   * machines that referred to it lose their operator and nothing else.
   */
  function Unassigned(machines: MachineTable, op: OperatorId): (r: MachineTable)
    ensures r.Keys == machines.Keys
    ensures forall m | m in r :: r[m].operatorId != Some(op)
    ensures forall m | m in r :: r[m].operatorId != machines[m].operatorId <==> machines[m].operatorId == Some(op)
    ensures forall m | m in r && machines[m].operatorId == Some(op) :: r[m].operatorId == None
    ensures forall m | m in r :: r[m].name == machines[m].name && r[m].status == machines[m].status
  {
    map m | m in machines :: if machines[m].operatorId == Some(op) then machines[m].(operatorId := None) else machines[m]
  }

  /** The ids of the sensors attached to machine `mid`. */
  function SensorIdsOf(sensors: SensorTable, mid: MachineId): set<SensorId> {
    set s | s in sensors && sensors[s].machineId == mid
  }

  /**
   * The sensors after `DELETE FROM sensors WHERE machineId = mid`: machine `mid`
   * has none left and every other sensor is kept as it was.
   */
  function WithoutSensorsOf(sensors: SensorTable, mid: MachineId): (r: SensorTable)
    ensures r.Keys == sensors.Keys - SensorIdsOf(sensors, mid)
    ensures SensorIdsOf(r, mid) == {}
    ensures forall s | s in r :: r[s] == sensors[s]
  {
    map s | s in sensors && sensors[s].machineId != mid :: sensors[s]
  }

  /** The row an INSERT INTO sensors writes for a submitted sensor of machine `mid`. */
  function RowFor(s: Sensor, mid: MachineId): SensorRow {
    SensorRow(s.name, s.sensorType, mid)
  }

  /**
   * The sensors after inserting, in order, one row per submitted sensor under
   * the matching fresh id. The new keys are exactly the fresh ids.
   */
  function AddSensors(base: SensorTable, mid: MachineId, reqs: seq<Sensor>, ids: seq<SensorId>): (r: SensorTable)
    requires |reqs| == |ids|
    ensures forall x :: x in r <==> x in base || x in ids
    decreases |ids|
  {
    if ids == [] then base
    else
      var n := |ids| - 1;
      AddSensors(base, mid, reqs[..n], ids[..n])[ids[n] := RowFor(reqs[n], mid)]
  }

  /** Every insert of fresh ids into `base` keeps the primary key: no id is taken or repeated. */
  predicate CanInsert(base: SensorTable, ids: seq<SensorId>) {
    Distinct(ids) && forall i | 0 <= i < |ids| :: ids[i] !in base
  }

  /** Inserting one more fresh id extends the insert of the shorter prefix. */
  lemma AddSensorsStep(base: SensorTable, mid: MachineId, reqs: seq<Sensor>, ids: seq<SensorId>, i: nat)
    requires |reqs| == |ids| && i < |ids|
    ensures AddSensors(base, mid, reqs[..i + 1], ids[..i + 1])
         == AddSensors(base, mid, reqs[..i], ids[..i])[ids[i] := RowFor(reqs[i], mid)]
  {
    assert ids[..i + 1][..i] == ids[..i] && reqs[..i + 1][..i] == reqs[..i];
  }

  /** A longer prefix of fresh ids can be inserted exactly when the shorter one can and the next id is unused. */
  lemma CanInsertStep(base: SensorTable, ids: seq<SensorId>, i: nat)
    requires i < |ids|
    ensures CanInsert(base, ids[..i + 1]) <==> CanInsert(base, ids[..i]) && ids[i] !in base && ids[i] !in ids[..i]
  {
    var p, q := ids[..i], ids[..i + 1];
    assert q == p + [ids[i]];
    if CanInsert(base, q) {
      assert ids[i] == q[i];
      forall j, k | 0 <= j < k < |p| ensures p[j] != p[k] {
        assert p[j] == q[j] && p[k] == q[k];
      }
    }
  }

  /**
   * When the fresh ids can be inserted, every submitted sensor is stored under
   * its fresh id with its name and type, and every existing sensor is kept.
   */
  lemma {:induction false} AddSensorsContents(base: SensorTable, mid: MachineId, reqs: seq<Sensor>, ids: seq<SensorId>)
    requires |reqs| == |ids| && CanInsert(base, ids)
    ensures var r := AddSensors(base, mid, reqs, ids);
      && (forall i | 0 <= i < |ids| :: r[ids[i]] == RowFor(reqs[i], mid))
      && (forall s | s in base :: r[s] == base[s])
  {
    if ids != [] {
      var n := |ids| - 1;
      var ids', reqs' := ids[..n], reqs[..n];
      assert CanInsert(base, ids') by {
        forall i, j | 0 <= i < j < |ids'| ensures ids'[i] != ids'[j] {
          assert ids'[i] == ids[i] && ids'[j] == ids[j];
        }
      }
      AddSensorsContents(base, mid, reqs', ids');
      var r' := AddSensors(base, mid, reqs', ids');
      var r := r'[ids[n] := RowFor(reqs[n], mid)];
      forall i | 0 <= i < |ids| ensures r[ids[i]] == RowFor(reqs[i], mid) {
        if i < n {
          assert ids[i] != ids[n];
          assert ids'[i] == ids[i] && reqs'[i] == reqs[i];
        }
      }
      forall s | s in base ensures r[s] == base[s] {
        assert s != ids[n];
      }
    }
  }

  /**
   * updateMachine's sensor replacement: afterwards machine `mid` has exactly
   * the fresh sensors, each with the submitted name and type, and every other
   * machine has the sensors it had before.
   */
  lemma ReplaceSensors(sensors: SensorTable, mid: MachineId, reqs: seq<Sensor>, ids: seq<SensorId>)
    requires |reqs| == |ids| && CanInsert(WithoutSensorsOf(sensors, mid), ids)
    ensures var r := AddSensors(WithoutSensorsOf(sensors, mid), mid, reqs, ids);
      && (forall x :: x in SensorIdsOf(r, mid) <==> x in ids)
      && (forall i | 0 <= i < |ids| :: r[ids[i]] == RowFor(reqs[i], mid))
      && (forall other | other != mid :: SensorIdsOf(r, other) == SensorIdsOf(sensors, other))
      && (forall x | x in sensors && sensors[x].machineId != mid :: x in r && r[x] == sensors[x])
  {
    var base := WithoutSensorsOf(sensors, mid);
    var r := AddSensors(base, mid, reqs, ids);
    AddSensorsContents(base, mid, reqs, ids);
    forall x ensures x in SensorIdsOf(r, mid) <==> x in ids {
      if x in ids {
        var i :| 0 <= i < |ids| && ids[i] == x;
        assert r[x] == RowFor(reqs[i], mid);
      } else if x in r {
        assert x in base;
      }
    }
    forall other | other != mid ensures SensorIdsOf(r, other) == SensorIdsOf(sensors, other) {
      forall x | x in r && r[x].machineId == other ensures x in SensorIdsOf(sensors, other) {
        assert x !in SensorIdsOf(r, mid);
        assert x in base;
      }
      forall x | x in SensorIdsOf(sensors, other) ensures x in r && r[x].machineId == other {
        assert x in base;
      }
    }
  }

  /** An operator reference as the JSON field carries it: "" for NULL. */
  function OperatorText(op: Option<OperatorId>): string {
    match op
    case None => ""
    case Some(s) => s
  }

  // ---------------------------------------------------------------------------
  // Read-time status override
  // ---------------------------------------------------------------------------

  /** Some maintenance record for machine `mid` is dated `day` (COUNT(*) > 0). */
  predicate HasMaintenanceOn(maintenance: map<MaintenanceId, MaintenanceRow>, mid: MachineId, day: string) {
    exists x | x in maintenance :: maintenance[x].machineId == mid && maintenance[x].date == day
  }

  /**
   * The status listMachines and getMachine report: "Em manutenção" on a day
   * with maintenance for the machine, otherwise the stored status.
   */
  function ReportedStatus(maintenance: map<MaintenanceId, MaintenanceRow>, mid: MachineId, stored: string, today: string): string {
    if HasMaintenanceOn(maintenance, mid, today) then UnderMaintenance else stored
  }

  /** A machine is reported as under maintenance exactly when it has a record today or that is its stored status. */
  lemma ReportedStatusIff(maintenance: map<MaintenanceId, MaintenanceRow>, mid: MachineId, stored: string, today: string)
    ensures ReportedStatus(maintenance, mid, stored, today) == UnderMaintenance
        <==> HasMaintenanceOn(maintenance, mid, today) || stored == UnderMaintenance
    ensures !HasMaintenanceOn(maintenance, mid, today) ==> ReportedStatus(maintenance, mid, stored, today) == stored
  {
  }

  /** Scheduling maintenance for today makes the machine read as under maintenance. */
  lemma CreateTodayShowsUnderMaintenance(l: StockLedger.Ledger, id: MaintenanceId, req: Maintenance, stored: string, today: string)
    requires StockLedger.Create(l, id, req).Ok? && req.date == today
    ensures ReportedStatus(StockLedger.Create(l, id, req).value.maintenance, req.machineId, stored, today) == UnderMaintenance
  {
    var m := StockLedger.Create(l, id, req).value.maintenance;
    assert m[id].machineId == req.machineId && m[id].date == today;
  }

  /**
   * Deleting the only maintenance record a machine has today gives it back its
   * stored status.
   */
  lemma DeleteLastTodayRestoresStatus(l: StockLedger.Ledger, id: MaintenanceId, mid: MachineId, stored: string, today: string)
    requires forall x | x in l.maintenance && x != id :: !(l.maintenance[x].machineId == mid && l.maintenance[x].date == today)
    ensures ReportedStatus(StockLedger.Delete(l, id).maintenance, mid, stored, today) == stored
  {
  }
}
