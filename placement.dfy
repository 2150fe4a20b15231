/**
 * What the sample managers of both pages (test_tube_tracker/js/sampleManager.js and
 * tube_organizer/js/sampleManager.js, whose code here is the same) do with the store
 * when a sample is added or removed. `findNextAvailableCell` collects the
 * `${row}-${col}` keys of the current rack's samples and scans the grid row by row for
 * the first cell without one; `handleAddSampleRequest` keeps a free target cell and
 * otherwise falls back to that scan. Cells are 0-based.
 */
module Placement {
  import opened Wrappers
  import opened Arrays
  import opened DataStore

  /** The `{ row, col }` objects the managers pass around (`selectedCell`, target cells). */
  datatype Cell = Cell(row: int, col: int)

  /** A truthy `currentRackId`: set and not the empty string. */
  predicate RackSelected(currentRackId: Option<Id>) {
    currentRackId.Some? && currentRackId.value != ""
  }

  /** The set of `${s.row}-${s.col}` keys of the rack's samples, one cell per key. */
  function OccupiedCells(samples: seq<Sample>, rackId: Id): set<Cell> {
    set s | s in FindSamplesByRack(samples, rackId) :: Cell(s.row, s.col)
  }

  /** A key is in the set exactly when some sample of the rack sits in that cell. */
  lemma OccupiedCellsIff(samples: seq<Sample>, rackId: Id, c: Cell)
    ensures c in OccupiedCells(samples, rackId) <==> CellTaken(samples, rackId, c.row, c.col)
  {
    var inRack := FindSamplesByRack(samples, rackId);
    if c in OccupiedCells(samples, rackId) {
      var s :| s in inRack && Cell(s.row, s.col) == c;
      var j :| 0 <= j < |samples| && samples[j] == s;
      assert Occupies(samples[j], rackId, c.row, c.col);
    }
    if CellTaken(samples, rackId, c.row, c.col) {
      var j :| 0 <= j < |samples| && Occupies(samples[j], rackId, c.row, c.col);
      assert samples[j] in inRack;
    }
  }

  predicate InGrid(rows: int, cols: int, c: Cell) {
    0 <= c.row < rows && 0 <= c.col < cols
  }

  /** The order of the nested scan: by row, then by column. */
  predicate RowMajorBefore(a: Cell, b: Cell) {
    a.row < b.row || (a.row == b.row && a.col < b.col)
  }

  /** `c` is the first cell of the grid, in scan order, that is not occupied. */
  ghost predicate FirstFree(rows: int, cols: int, occupied: set<Cell>, c: Cell) {
    InGrid(rows, cols, c) && c !in occupied &&
    forall d :: InGrid(rows, cols, d) && RowMajorBefore(d, c) ==> d in occupied
  }

  /** Every cell of the grid is occupied. */
  ghost predicate Full(rows: int, cols: int, occupied: set<Cell>) {
    forall d :: InGrid(rows, cols, d) ==> d in occupied
  }

  /** There is only one first free cell. */
  lemma FirstFreeUnique(rows: int, cols: int, occupied: set<Cell>, a: Cell, b: Cell)
    requires FirstFree(rows, cols, occupied, a) && FirstFree(rows, cols, occupied, b)
    ensures a == b
  {
  }

  /** The two nested `for` loops with their early return. */
  method FindFree(rows: int, cols: int, occupied: set<Cell>) returns (found: Option<Cell>)
    ensures found.Some? ==> FirstFree(rows, cols, occupied, found.value)
    ensures found.None? <==> Full(rows, cols, occupied)
  {
    var r := 0;
    while r < rows
      invariant 0 <= r && (r <= rows || r == 0)
      invariant forall d :: InGrid(rows, cols, d) && d.row < r ==> d in occupied
    {
      var c := 0;
      while c < cols
        invariant 0 <= c && (c <= cols || c == 0)
        invariant forall d :: InGrid(rows, cols, d) && (d.row < r || (d.row == r && d.col < c)) ==> d in occupied
      {
        if Cell(r, c) !in occupied {
          return Some(Cell(r, c));
        }
        c := c + 1;
      }
      r := r + 1;
    }
    return None;
  }

  /**
   * `findNextAvailableCell`: None without a selected rack or when that rack is missing;
   * otherwise the first free cell of its grid, None exactly when the grid is full.
   */
  method FindNextAvailableCell(racks: seq<Rack>, samples: seq<Sample>, currentRackId: Option<Id>)
    returns (cell: Option<Cell>)
    ensures !RackSelected(currentRackId) || FindRackById(racks, currentRackId.value).None? ==> cell.None?
    ensures RackSelected(currentRackId) && FindRackById(racks, currentRackId.value).Some? ==>
      var rack := FindRackById(racks, currentRackId.value).value;
      var occupied := OccupiedCells(samples, currentRackId.value);
      (cell.Some? ==> FirstFree(rack.rows, rack.cols, occupied, cell.value)) &&
      (cell.None? <==> Full(rack.rows, rack.cols, occupied))
  {
    if !RackSelected(currentRackId) {
      return None;
    }
    var rack := FindRackById(racks, currentRackId.value);
    if rack.None? {
      return None;
    }
    var occupied := OccupiedCells(samples, currentRackId.value);
    cell := FindFree(rack.value.rows, rack.value.cols, occupied);
  }

  /** Where `handleAddSampleRequest` puts the sample, or why it adds nothing. */
  datatype Spot = NoRack | NoFreeCell | At(cell: Cell)

  /**
   * The placement rule: a free target cell is kept; an occupied or missing target falls
   * back to the first free cell of the current rack, and nothing is added when there is none.
   * The target itself is not checked against the rack's size.
   */
  ghost predicate PlacedBy(racks: seq<Rack>, samples: seq<Sample>, currentRackId: Option<Id>, target: Option<Cell>, spot: Spot) {
    if !RackSelected(currentRackId) then spot == NoRack
    else
      var id := currentRackId.value;
      if target.Some? && !CellTaken(samples, id, target.value.row, target.value.col) then spot == At(target.value)
      else
        match FindRackById(racks, id)
        case None => spot == NoFreeCell
        case Some(rack) =>
          var occupied := OccupiedCells(samples, id);
          if Full(rack.rows, rack.cols, occupied) then spot == NoFreeCell
          else spot.At? && FirstFree(rack.rows, rack.cols, occupied, spot.cell)
  }

  /** The rule leaves no choice: for given inputs there is exactly one outcome. */
  lemma PlacedByUnique(racks: seq<Rack>, samples: seq<Sample>, currentRackId: Option<Id>, target: Option<Cell>, a: Spot, b: Spot)
    requires PlacedBy(racks, samples, currentRackId, target, a) && PlacedBy(racks, samples, currentRackId, target, b)
    ensures a == b
  {
    if a.At? && b.At? && RackSelected(currentRackId) {
      var id := currentRackId.value;
      if !(target.Some? && !CellTaken(samples, id, target.value.row, target.value.col)) {
        var rack := FindRackById(racks, id).value;
        FirstFreeUnique(rack.rows, rack.cols, OccupiedCells(samples, id), a.cell, b.cell);
      }
    }
  }

  /** The chosen cell never holds a sample of the current rack, so the store's cell check always passes. */
  lemma PlacedCellIsFree(racks: seq<Rack>, samples: seq<Sample>, currentRackId: Option<Id>, target: Option<Cell>, spot: Spot)
    requires PlacedBy(racks, samples, currentRackId, target, spot) && spot.At?
    ensures RackSelected(currentRackId) && !CellTaken(samples, currentRackId.value, spot.cell.row, spot.cell.col)
  {
    OccupiedCellsIff(samples, currentRackId.value, spot.cell);
  }

  /** The choice of cell in `handleAddSampleRequest`, before it calls `addSample`. */
  method ChooseCell(racks: seq<Rack>, samples: seq<Sample>, currentRackId: Option<Id>, target: Option<Cell>)
    returns (spot: Spot)
    ensures PlacedBy(racks, samples, currentRackId, target, spot)
  {
    if !RackSelected(currentRackId) {
      return NoRack;
    }
    var id := currentRackId.value;
    if target.Some? && FindSampleByLocation(samples, id, target.value.row, target.value.col).None? {
      return At(target.value);
    }
    var next := FindNextAvailableCell(racks, samples, currentRackId);
    if next.None? {
      return NoFreeCell;
    }
    return At(next.value);
  }

  /**
   * The store side of `handleAddSampleRequest`: picks the cell by the placement rule, then
   * calls `addSample`. Since the rule never picks a taken cell, the store can only refuse
   * because the sample id is in use.
   */
  method AddSampleRequest(store: Store, currentRackId: Option<Id>, sampleId: Id, comment: string,
                          targetCell: Option<Cell>, now: Timestamp)
    returns (spot: Spot, added: Option<Sample>)
    requires store.Valid()
    modifies store
    ensures store.Valid()
    ensures PlacedBy(old(store.racks), old(store.samples), currentRackId, targetCell, spot)
    ensures !spot.At? ==> added.None?
    ensures added.None? ==> unchanged(store)
    ensures spot.At? ==> (added.None? <==> IdTaken(old(store.samples), sampleId))
    ensures added.Some? ==>
      added.value == Sample(sampleId, currentRackId.value, spot.cell.row, spot.cell.col, comment, now, now) &&
      store.samples == old(store.samples) + [added.value] && store.racks == old(store.racks) &&
      store.history == [CreateSampleRecord(old(store.racks), added.value, old(store.nextId), now)] + old(store.history) &&
      store.nextId == old(store.nextId) + 1
  {
    added := None;
    spot := ChooseCell(store.racks, store.samples, currentRackId, targetCell);
    if !spot.At? {
      return;
    }
    PlacedCellIsFree(store.racks, store.samples, currentRackId, targetCell, spot);
    added := store.AddSample(SampleData(sampleId, currentRackId.value, spot.cell.row, spot.cell.col, comment), now);
  }

  /** Whether a sample sits at the selected row and column; the rack is not compared. */
  predicate WasSelected(selectedCell: Option<Cell>, s: Sample) {
    selectedCell.Some? && selectedCell.value.row == s.row && selectedCell.value.col == s.col
  }

  /**
   * The store side of `handleRemoveSampleRequest`: an empty id or a declined confirmation
   * changes nothing; otherwise `wasSelected` is computed from the sample as it is before
   * `deleteSample` runs.
   */
  method RemoveSampleRequest(store: Store, selectedCell: Option<Cell>, sampleId: Id, confirmed: bool, now: Timestamp)
    returns (deleted: Option<Sample>, wasSelected: bool)
    requires store.Valid()
    modifies store
    ensures store.Valid()
    ensures sampleId == "" || !confirmed ==> deleted.None?
    ensures sampleId != "" && confirmed ==> (deleted.Some? <==> IdTaken(old(store.samples), sampleId))
    ensures deleted.None? ==> unchanged(store)
    ensures deleted.Some? ==>
      deleted.value == old(store.samples)[SampleIndex(old(store.samples), sampleId)] &&
      store.samples == RemoveAt(old(store.samples), SampleIndex(old(store.samples), sampleId)) &&
      wasSelected == WasSelected(selectedCell, deleted.value) &&
      store.racks == old(store.racks) &&
      store.history == [DeleteSampleRecord(old(store.racks), deleted.value, old(store.nextId), now)] + old(store.history) &&
      store.nextId == old(store.nextId) + 1
  {
    deleted, wasSelected := None, false;
    if sampleId == "" || !confirmed {
      return;
    }
    var sampleToDelete := FindSampleById(store.samples, sampleId);
    wasSelected := sampleToDelete.Some? && WasSelected(selectedCell, sampleToDelete.value);
    deleted := store.DeleteSample(sampleId, now);
  }
}
