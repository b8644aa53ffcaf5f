/**
 * The maintenance-stock ledger: the three tables `stock`, `maintenance` and
 * `maintenance_stock` and the closed-form effect of creating, updating and
 * deleting a maintenance record on them. The handlers in Backend.Store perform
 * these effects row by row inside a transaction; this module states what the
 * committed result is and proves what it means for the stock quantities.
 */
module StockLedger {
  import opened Wrappers
  import opened Schema

  type UsageTable = map<MaintenanceId, seq<UsedStockItem>>

  /** The three tables the ledger operations touch. */
  datatype Ledger = Ledger(
    stock: map<StockId, StockItem>,
    maintenance: map<MaintenanceId, MaintenanceRow>,
    usage: UsageTable)   // maintenance_stock, grouped by maintenanceId in insertion order

  /** The stock ids named by a list of usage rows, in order. */
  function StockIds(rows: seq<UsedStockItem>): seq<StockId> {
    seq(|rows|, i requires 0 <= i < |rows| => rows[i].stockId)
  }

  /** The usage rows stored against `id` (none when the table has no row for it). */
  function UsageOf(usage: UsageTable, id: MaintenanceId): seq<UsedStockItem> {
    if id in usage then usage[id] else []
  }

  /** The table after all rows of `id` are replaced by `rows`; an id with no rows has no key. */
  function SetRows(usage: UsageTable, id: MaintenanceId, rows: seq<UsedStockItem>): UsageTable {
    if rows == [] then usage - {id} else usage[id := rows]
  }

  /**
   * The primary key PRIMARY KEY(maintenanceId, stockId) of `maintenance_stock`:
   * per maintenance id the stock ids are distinct, and an id with no rows has no key.
   */
  predicate Valid(l: Ledger) {
    forall id | id in l.usage :: l.usage[id] != [] && Distinct(StockIds(l.usage[id]))
  }

  /** The sum of the quantities that the entries of `rows` name against stock item `k`. */
  function Total(rows: seq<UsedStockItem>, k: StockId): int {
    if rows == [] then 0
    else (if rows[0].stockId == k then rows[0].quantity else 0) + Total(rows[1..], k)
  }

  /** Every existing stock item lowered by what `rows` name against it; no item is added. */
  function Deducted(stock: map<StockId, StockItem>, rows: seq<UsedStockItem>): map<StockId, StockItem> {
    map k | k in stock :: stock[k].(quantity := stock[k].quantity - Total(rows, k))
  }

  /** Every existing stock item raised by what `rows` name against it; no item is added. */
  function Restored(stock: map<StockId, StockItem>, rows: seq<UsedStockItem>): map<StockId, StockItem> {
    map k | k in stock :: stock[k].(quantity := stock[k].quantity + Total(rows, k))
  }

  // ---------------------------------------------------------------------------
  // The three transitions
  // ---------------------------------------------------------------------------

  /**
   * createMaintenance: insert the record with status "scheduled", insert one
   * usage row per entry and deduct each entry's quantity from its stock item.
   * The INSERT of the record fails on an existing id, an INSERT of a usage row
   * fails when (id, stockId) is already present; either failure rolls back.
   */
  function Create(l: Ledger, id: MaintenanceId, req: Maintenance): Result<Ledger, Error> {
    if id in l.maintenance then Err(UniqueViolation("maintenance"))
    else if !Distinct(StockIds(UsageOf(l.usage, id) + req.usedStock)) then Err(UniqueViolation("maintenance_stock"))
    else Ok(Ledger(
      Deducted(l.stock, req.usedStock),
      l.maintenance[id := MaintenanceRow(req.machineId, req.date, req.description, Scheduled)],
      SetRows(l.usage, id, UsageOf(l.usage, id) + req.usedStock)))
  }

  /**
   * updateMaintenance: overwrite the record's fields (an UPDATE of a missing id
   * changes nothing), delete every usage row of the id and insert the request's
   * entries. Stock quantities are not touched. Two entries with one stock id
   * violate the primary key and roll everything back.
   */
  function Update(l: Ledger, id: MaintenanceId, req: Maintenance): Result<Ledger, Error> {
    if !Distinct(StockIds(req.usedStock)) then Err(UniqueViolation("maintenance_stock"))
    else Ok(Ledger(
      l.stock,
      if id in l.maintenance
      then l.maintenance[id := MaintenanceRow(req.machineId, req.date, req.description, req.status)]
      else l.maintenance,
      SetRows(l.usage, id, req.usedStock)))
  }

  /**
   * deleteMaintenance: add each usage row's quantity back to its stock item
   * (an UPDATE of a missing stock id changes nothing), then delete the usage
   * rows and the record. It never fails.
   */
  function Delete(l: Ledger, id: MaintenanceId): Ledger {
    Ledger(Restored(l.stock, UsageOf(l.usage, id)), l.maintenance - {id}, l.usage - {id})
  }

  /** getMaintenance: the record reassembled with its usage rows, or none. */
  function Lookup(l: Ledger, id: MaintenanceId): Option<Maintenance> {
    if id !in l.maintenance then None
    else
      var row := l.maintenance[id];
      Some(Maintenance(id, row.machineId, row.date, row.description, row.status, UsageOf(l.usage, id)))
  }

  // ---------------------------------------------------------------------------
  // Facts about Total
  // ---------------------------------------------------------------------------

  lemma {:induction false} TotalAppend(a: seq<UsedStockItem>, b: seq<UsedStockItem>, k: StockId)
    ensures Total(a + b, k) == Total(a, k) + Total(b, k)
  {
    if a == [] {
      assert a + b == b;
    } else {
      assert (a + b)[1..] == a[1..] + b;
      TotalAppend(a[1..], b, k);
    }
  }

  /** A stock id that no entry names has nothing reserved against it. */
  lemma {:induction false} TotalNotNamed(rows: seq<UsedStockItem>, k: StockId)
    requires k !in StockIds(rows)
    ensures Total(rows, k) == 0
  {
    if rows != [] {
      assert StockIds(rows)[0] == rows[0].stockId;
      assert StockIds(rows[1..]) == StockIds(rows)[1..];
      TotalNotNamed(rows[1..], k);
    }
  }

  /** With distinct stock ids, the total against an entry's stock id is that entry's quantity. */
  lemma {:induction false} TotalOfDistinct(rows: seq<UsedStockItem>, j: nat)
    requires Distinct(StockIds(rows))
    requires j < |rows|
    ensures Total(rows, rows[j].stockId) == rows[j].quantity
  {
    assert StockIds(rows[1..]) == StockIds(rows)[1..];
    if j == 0 {
      assert rows[0].stockId !in StockIds(rows[1..]) by {
        forall i | 0 <= i < |rows[1..]| ensures StockIds(rows[1..])[i] != rows[0].stockId {
          assert StockIds(rows)[i + 1] != StockIds(rows)[0];
        }
      }
      TotalNotNamed(rows[1..], rows[0].stockId);
    } else {
      assert rows[j].stockId != rows[0].stockId by {
        assert StockIds(rows)[0] != StockIds(rows)[j];
      }
      TotalOfDistinct(rows[1..], j - 1);
    }
  }

  lemma DistinctSuffix(a: seq<StockId>, b: seq<StockId>)
    requires Distinct(a + b)
    ensures Distinct(b)
  {
    forall i, j | 0 <= i < j < |b| ensures b[i] != b[j] {
      assert (a + b)[|a| + i] != (a + b)[|a| + j];
    }
  }

  lemma StockIdsAppend(a: seq<UsedStockItem>, b: seq<UsedStockItem>)
    ensures StockIds(a + b) == StockIds(a) + StockIds(b)
  {
  }

  /** Appending a row whose stock id is new keeps the stock ids distinct. */
  lemma DistinctAppend(rows: seq<UsedStockItem>, item: UsedStockItem)
    requires Distinct(StockIds(rows)) && item.stockId !in StockIds(rows)
    ensures Distinct(StockIds(rows + [item]))
  {
    StockIdsAppend(rows, [item]);
  }

  /** A stock id that is already among the rows of a prefix makes the whole list clash. */
  lemma ClashInPrefix(rows: seq<UsedStockItem>, n: nat)
    requires n < |rows| && rows[n].stockId in StockIds(rows[..n])
    ensures !Distinct(StockIds(rows))
  {
    var p :| 0 <= p < n && StockIds(rows[..n])[p] == rows[n].stockId;
    assert StockIds(rows)[p] == StockIds(rows)[n];
  }

  /** Deducting one more row changes at most the quantity of the row's stock item. */
  lemma DeductedStep(stock: map<StockId, StockItem>, rows: seq<UsedStockItem>, item: UsedStockItem)
    ensures var d := Deducted(stock, rows);
      Deducted(stock, rows + [item])
        == if item.stockId in d then d[item.stockId := d[item.stockId].(quantity := d[item.stockId].quantity - item.quantity)] else d
  {
    forall k ensures Total(rows + [item], k) == Total(rows, k) + (if item.stockId == k then item.quantity else 0) {
      TotalAppend(rows, [item], k);
    }
  }

  /** Restoring one more row changes at most the quantity of the row's stock item. */
  lemma RestoredStep(stock: map<StockId, StockItem>, rows: seq<UsedStockItem>, item: UsedStockItem)
    ensures var d := Restored(stock, rows);
      Restored(stock, rows + [item])
        == if item.stockId in d then d[item.stockId := d[item.stockId].(quantity := d[item.stockId].quantity + item.quantity)] else d
  {
    forall k ensures Total(rows + [item], k) == Total(rows, k) + (if item.stockId == k then item.quantity else 0) {
      TotalAppend(rows, [item], k);
    }
  }

  // ---------------------------------------------------------------------------
  // Create
  // ---------------------------------------------------------------------------

  /**
   * A create fails exactly on a clashing record id or on a stock id named twice,
   * either twice in the request or once in the request and once in a usage row
   * already stored against the id.
   */
  lemma CreateFailsExactlyOnKeyClash(l: Ledger, id: MaintenanceId, req: Maintenance)
    requires Valid(l)
    ensures Create(l, id, req).Err? <==>
      id in l.maintenance
      || !Distinct(StockIds(req.usedStock))
      || exists j :: 0 <= j < |req.usedStock| && req.usedStock[j].stockId in StockIds(UsageOf(l.usage, id))
  {
    var old_, new_ := UsageOf(l.usage, id), req.usedStock;
    StockIdsAppend(old_, new_);
    var ids := StockIds(old_ + new_);
    if Distinct(ids) {
      DistinctSuffix(StockIds(old_), StockIds(new_));
      forall j | 0 <= j < |new_| ensures new_[j].stockId !in StockIds(old_) {
        forall i | 0 <= i < |old_| ensures StockIds(old_)[i] != new_[j].stockId {
          assert ids[i] != ids[|old_| + j];
        }
      }
    } else {
      var p, q :| 0 <= p < q < |ids| && ids[p] == ids[q];
      if q < |old_| {
        assert false;
      } else if p < |old_| {
        assert new_[q - |old_|].stockId == StockIds(old_)[p];
      } else {
        assert StockIds(new_)[p - |old_|] == StockIds(new_)[q - |old_|];
      }
    }
  }

  /** A successful create keeps the usage table's primary key. */
  lemma CreateKeepsValid(l: Ledger, id: MaintenanceId, req: Maintenance)
    requires Valid(l) && Create(l, id, req).Ok?
    ensures Valid(Create(l, id, req).value)
  {
  }

  /**
   * A successful create deducts each entry's quantity from its stock item when
   * that item exists, adds no stock item, and leaves every stock item no entry
   * names unchanged. Nothing checks that enough stock is on hand.
   */
  lemma {:induction false} CreateDeductsEachEntry(l: Ledger, id: MaintenanceId, req: Maintenance)
    requires Valid(l) && Create(l, id, req).Ok?
    ensures var l' := Create(l, id, req).value;
      && l'.stock.Keys == l.stock.Keys
      && (forall j | 0 <= j < |req.usedStock| && req.usedStock[j].stockId in l.stock ::
            l'.stock[req.usedStock[j].stockId]
              == l.stock[req.usedStock[j].stockId].(quantity := l.stock[req.usedStock[j].stockId].quantity - req.usedStock[j].quantity))
      && (forall k | k in l.stock && k !in StockIds(req.usedStock) :: l'.stock[k] == l.stock[k])
  {
    var rows := req.usedStock;
    StockIdsAppend(UsageOf(l.usage, id), rows);
    DistinctSuffix(StockIds(UsageOf(l.usage, id)), StockIds(rows));
    forall j | 0 <= j < |rows| ensures Total(rows, rows[j].stockId) == rows[j].quantity {
      TotalOfDistinct(rows, j);
    }
    forall k | k !in StockIds(rows) ensures Total(rows, k) == 0 {
      TotalNotNamed(rows, k);
    }
  }

  /** The record is stored with status "scheduled" and reads back with the request's entries. */
  lemma CreateStoresScheduled(l: Ledger, id: MaintenanceId, req: Maintenance)
    requires Create(l, id, req).Ok?
    requires UsageOf(l.usage, id) == []
    ensures Lookup(Create(l, id, req).value, id) == Some(req.(id := id, status := Scheduled))
  {
    assert [] + req.usedStock == req.usedStock;
  }

  /** A create never touches another maintenance record or its usage rows. */
  lemma CreateKeepsOtherRecords(l: Ledger, id: MaintenanceId, req: Maintenance, other: MaintenanceId)
    requires Create(l, id, req).Ok?
    requires other != id
    ensures Lookup(Create(l, id, req).value, other) == Lookup(l, other)
  {
  }

  // ---------------------------------------------------------------------------
  // Update
  // ---------------------------------------------------------------------------

  /**
   * An update fails exactly when its request names a stock id twice; it then
   * changes nothing. On success no stock quantity changes, the id reads back
   * with the request's fields and entries if it had a record, and if it had
   * none it still has none while the request's entries are stored against it.
   */
  lemma UpdateOverwrites(l: Ledger, id: MaintenanceId, req: Maintenance)
    ensures Update(l, id, req).Ok? <==> Distinct(StockIds(req.usedStock))
    ensures Update(l, id, req).Ok? ==>
      var l' := Update(l, id, req).value;
      && l'.stock == l.stock
      && UsageOf(l'.usage, id) == req.usedStock
      && (id in l.maintenance ==> Lookup(l', id) == Some(req.(id := id)))
      && (id !in l.maintenance ==> Lookup(l', id) == None)
      && (forall other | other != id ::
            Lookup(l', other) == Lookup(l, other) && UsageOf(l'.usage, other) == UsageOf(l.usage, other))
  {
  }

  /** A successful update keeps the usage table's primary key. */
  lemma UpdateKeepsValid(l: Ledger, id: MaintenanceId, req: Maintenance)
    requires Valid(l) && Update(l, id, req).Ok?
    ensures Valid(Update(l, id, req).value)
  {
  }

  // ---------------------------------------------------------------------------
  // Delete
  // ---------------------------------------------------------------------------

  /**
   * Delete adds each of the record's usage-row quantities back to its stock
   * item when the item still exists, adds no stock item, leaves every other
   * item unchanged, and removes the record and all its usage rows.
   */
  lemma {:induction false} DeleteRestoresEachRow(l: Ledger, id: MaintenanceId)
    requires Valid(l)
    ensures var rows, l' := UsageOf(l.usage, id), Delete(l, id);
      && l'.stock.Keys == l.stock.Keys
      && (forall j | 0 <= j < |rows| && rows[j].stockId in l.stock ::
            l'.stock[rows[j].stockId]
              == l.stock[rows[j].stockId].(quantity := l.stock[rows[j].stockId].quantity + rows[j].quantity))
      && (forall k | k in l.stock && k !in StockIds(rows) :: l'.stock[k] == l.stock[k])
      && Lookup(l', id) == None
      && UsageOf(l'.usage, id) == []
      && (forall other | other != id ::
            Lookup(l', other) == Lookup(l, other) && UsageOf(l'.usage, other) == UsageOf(l.usage, other))
  {
    var rows := UsageOf(l.usage, id);
    forall j | 0 <= j < |rows| ensures Total(rows, rows[j].stockId) == rows[j].quantity {
      TotalOfDistinct(rows, j);
    }
    forall k | k !in StockIds(rows) ensures Total(rows, k) == 0 {
      TotalNotNamed(rows, k);
    }
  }

  /** Deleting an id with no record and no usage rows changes nothing (and still succeeds). */
  lemma DeleteUnknownIsNoop(l: Ledger, id: MaintenanceId)
    requires id !in l.maintenance && id !in l.usage
    ensures Delete(l, id) == l
  {
    assert l.maintenance - {id} == l.maintenance;
    assert l.usage - {id} == l.usage;
    assert Restored(l.stock, []) == l.stock;
  }

  /**
   * Update stores usage rows even for an id with no record, and delete then
   * restores them: the stock goes up by quantities that were never deducted,
   * while the maintenance table stays as it was.
   */
  lemma {:induction false} UpdateUnknownThenDeleteRaisesStock(l: Ledger, x: MaintenanceId, req: Maintenance, j: nat)
    requires x !in l.maintenance && x !in l.usage
    requires Update(l, x, req).Ok?
    requires j < |req.usedStock| && req.usedStock[j].stockId in l.stock
    ensures var k, l' := req.usedStock[j].stockId, Delete(Update(l, x, req).value, x);
      && l'.maintenance == l.maintenance
      && k in l'.stock
      && l'.stock[k].quantity == l.stock[k].quantity + req.usedStock[j].quantity
  {
    var l1 := Update(l, x, req).value;
    assert UsageOf(l1.usage, x) == req.usedStock;
    assert l1.stock == l.stock;
    assert l1.maintenance - {x} == l.maintenance;
    TotalOfDistinct(req.usedStock, j);
  }

  /** Deleting keeps the usage table's primary key. */
  lemma DeleteKeepsValid(l: Ledger, id: MaintenanceId)
    requires Valid(l)
    ensures Valid(Delete(l, id))
  {
  }

  /** Restoring what was deducted gives back the original stock table. */
  lemma RestoredDeducted(stock: map<StockId, StockItem>, rows: seq<UsedStockItem>)
    ensures Restored(Deducted(stock, rows), rows) == stock
  {
    var s' := Restored(Deducted(stock, rows), rows);
    assert s'.Keys == stock.Keys;
    forall k | k in stock ensures s'[k] == stock[k] {
    }
  }

  /**
   * Creating a record under a fresh id and deleting it again restores all three
   * tables, in particular every stock item's quantity.
   */
  lemma CreateThenDelete(l: Ledger, id: MaintenanceId, req: Maintenance)
    requires Create(l, id, req).Ok?
    requires id !in l.usage
    ensures Delete(Create(l, id, req).value, id) == l
  {
    var l' := Create(l, id, req).value;
    assert UsageOf(l'.usage, id) == req.usedStock;
    RestoredDeducted(l.stock, req.usedStock);
    assert l'.maintenance - {id} == l.maintenance;
    assert l'.usage - {id} == l.usage;
  }

  // ---------------------------------------------------------------------------
  // Conservation: quantity on hand plus quantity reserved by stored usage rows
  // ---------------------------------------------------------------------------

  /** The quantity of stock item `k` that all stored usage rows reserve. */
  ghost function Reserved(usage: UsageTable, k: StockId): int
    decreases usage.Keys
  {
    if usage == map[] then 0
    else
      var id :| id in usage;
      Total(usage[id], k) + Reserved(usage - {id}, k)
  }

  /** Reserved does not depend on which key is taken out first. */
  lemma {:induction false} ReservedRemove(usage: UsageTable, id: MaintenanceId, k: StockId)
    requires id in usage
    ensures Reserved(usage, k) == Total(usage[id], k) + Reserved(usage - {id}, k)
    decreases usage.Keys
  {
    var picked :| picked in usage && Reserved(usage, k) == Total(usage[picked], k) + Reserved(usage - {picked}, k);
    if picked != id {
      var rest := usage - {picked};
      ReservedRemove(rest, id, k);
      assert rest - {id} == (usage - {id}) - {picked};
      ReservedRemove(usage - {id}, picked, k);
    }
  }

  /** The reservation of one id, split off from all the others. */
  lemma ReservedSplit(usage: UsageTable, id: MaintenanceId, k: StockId)
    ensures Reserved(usage, k) == Total(UsageOf(usage, id), k) + Reserved(usage - {id}, k)
  {
    if id in usage {
      ReservedRemove(usage, id, k);
    } else {
      assert usage - {id} == usage;
    }
  }

  /** Stock on hand of `k` plus what the stored usage rows reserve of it. */
  ghost function Balance(l: Ledger, k: StockId): int
    requires k in l.stock
  {
    l.stock[k].quantity + Reserved(l.usage, k)
  }

  lemma ReservedSetRows(usage: UsageTable, id: MaintenanceId, rows: seq<UsedStockItem>, k: StockId)
    ensures Reserved(SetRows(usage, id, rows), k) == Total(rows, k) + Reserved(usage - {id}, k)
  {
    var u := SetRows(usage, id, rows);
    ReservedSplit(u, id, k);
    assert u - {id} == usage - {id};
  }

  /** A successful create keeps every stock item's balance. */
  lemma CreateConserves(l: Ledger, id: MaintenanceId, req: Maintenance, k: StockId)
    requires Create(l, id, req).Ok? && k in l.stock
    ensures Balance(Create(l, id, req).value, k) == Balance(l, k)
  {
    var rows := UsageOf(l.usage, id) + req.usedStock;
    ReservedSetRows(l.usage, id, rows, k);
    TotalAppend(UsageOf(l.usage, id), req.usedStock, k);
    ReservedSplit(l.usage, id, k);
  }

  /** Delete keeps every stock item's balance. */
  lemma DeleteConserves(l: Ledger, id: MaintenanceId, k: StockId)
    requires k in l.stock
    ensures Balance(Delete(l, id), k) == Balance(l, k)
  {
    ReservedSplit(l.usage, id, k);
  }

  /**
   * Update changes no quantity but replaces the reservation, so it keeps an
   * item's balance exactly when the new entries reserve as much of it as the
   * old usage rows did.
   */
  lemma UpdateConservesIff(l: Ledger, id: MaintenanceId, req: Maintenance, k: StockId)
    requires Update(l, id, req).Ok? && k in l.stock
    ensures Balance(Update(l, id, req).value, k) == Balance(l, k)
        <==> Total(req.usedStock, k) == Total(UsageOf(l.usage, id), k)
  {
    ReservedSetRows(l.usage, id, req.usedStock, k);
    ReservedSplit(l.usage, id, k);
  }

  // ---------------------------------------------------------------------------
  // Concrete scenarios
  // ---------------------------------------------------------------------------

  /**
   * No sufficiency check: with 3 bolts on hand, a request for 5 bolts is
   * accepted and leaves -2.
   */
  lemma CreateMayGoNegative()
    ensures var bolt := StockItem("bolt", 3, "pc", "A1");
      var l := Ledger(map["b" := bolt], map[], map[]);
      var req := Maintenance("", "m", "2024-05-01", "", "", [UsedStockItem("b", 5)]);
      && Create(l, "x", req).Ok?
      && Create(l, "x", req).value.stock["b"].quantity == -2
  {
    var req := Maintenance("", "m", "2024-05-01", "", "", [UsedStockItem("b", 5)]);
    assert StockIds(req.usedStock) == ["b"];
    assert UsageOf(map[], "x") + req.usedStock == req.usedStock;
  }

  /**
   * Two entries for the same stock item in one request clash on the usage
   * table's primary key, so the create fails and nothing is stored.
   */
  lemma CreateRejectsRepeatedStockId(l: Ledger, id: MaintenanceId, req: Maintenance, i: nat, j: nat)
    requires i < j < |req.usedStock|
    requires req.usedStock[i].stockId == req.usedStock[j].stockId
    ensures Create(l, id, req) == Err(if id in l.maintenance then UniqueViolation("maintenance") else UniqueViolation("maintenance_stock"))
  {
    var rows := UsageOf(l.usage, id);
    var ids := StockIds(rows + req.usedStock);
    assert ids[|rows| + i] == ids[|rows| + j];
  }

  /**
   * An update that swaps 7 reserved bolts for 2 bolts and 1 nut is accepted
   * although no nut is on hand, and leaves both quantities as they were.
   */
  lemma UpdateMovesNoStock()
    ensures var stock := map["bolt" := StockItem("bolt", 3, "pc", "A1"), "nut" := StockItem("nut", 0, "pc", "A2")];
      var l := Ledger(stock, map["M1" := MaintenanceRow("m", "2024-05-01", "", Scheduled)],
                      map["M1" := [UsedStockItem("bolt", 7)]]);
      var req := Maintenance("M1", "m", "2024-05-01", "", "done", [UsedStockItem("bolt", 2), UsedStockItem("nut", 1)]);
      && Update(l, "M1", req).Ok?
      && Update(l, "M1", req).value.stock == stock
      && Update(l, "M1", req).value.usage["M1"] == req.usedStock
  {
    var rows := [UsedStockItem("bolt", 2), UsedStockItem("nut", 1)];
    assert StockIds(rows) == ["bolt", "nut"];
  }
}
