/**
 * The sample page of the organizer (tube_organizer/js/sampleManager.js): the same add
 * and remove requests as the tracker's page, without search, and a rack button that
 * switches whenever its id differs from the current one.
 */
module OrganizerSampleManager {
  import opened Wrappers
  import opened Arrays
  import opened DataStore
  import opened Placement

  /** The page state of the sample manager, over the store it calls. */
  class SampleManager {
    const store: Store
    var currentRackId: Option<Id>
    var selectedCell: Option<Cell>

    /** `init` ends in `resetPage`: no rack shown, nothing selected. */
    constructor(store: Store)
      ensures this.store == store && currentRackId == None && selectedCell == None
    {
      this.store := store;
      currentRackId := None;
      selectedCell := None;
    }

    /** `resetPage`: no rack shown, nothing selected. */
    method ResetPage()
      modifies this`currentRackId, this`selectedCell
      ensures currentRackId == None && selectedCell == None
    {
      currentRackId := None;
      selectedCell := None;
    }

    /**
     * `handleRackButtonClick`: a click on any other id, even an empty one, makes it current
     * and clears the selection.
     */
    method HandleRackButtonClick(clickedRackId: Id)
      modifies this`currentRackId, this`selectedCell
      ensures Some(clickedRackId) == old(currentRackId) ==>
        currentRackId == old(currentRackId) && selectedCell == old(selectedCell)
      ensures Some(clickedRackId) != old(currentRackId) ==>
        currentRackId == Some(clickedRackId) && selectedCell == None
    {
      if Some(clickedRackId) != currentRackId {
        currentRackId := Some(clickedRackId);
        selectedCell := None;
      }
    }

    /** `handleCellSelected`: a click on the grid selects that cell. */
    method HandleCellSelected(row: int, col: int)
      modifies this`selectedCell
      ensures selectedCell == Some(Cell(row, col))
    {
      selectedCell := Some(Cell(row, col));
    }

    /** `handleAddSampleRequest`: on success the new sample's cell becomes the selection. */
    method HandleAddSampleRequest(sampleId: Id, comment: string, targetCell: Option<Cell>, now: Timestamp)
      returns (spot: Spot, added: Option<Sample>)
      requires store.Valid()
      modifies this`selectedCell, store
      ensures store.Valid()
      ensures PlacedBy(old(store.racks), old(store.samples), currentRackId, targetCell, spot)
      ensures !spot.At? ==> added.None?
      ensures added.None? ==> unchanged(store) && selectedCell == old(selectedCell)
      ensures spot.At? ==> (added.None? <==> IdTaken(old(store.samples), sampleId))
      ensures added.Some? ==>
        added.value == Sample(sampleId, currentRackId.value, spot.cell.row, spot.cell.col, comment, now, now) &&
        store.samples == old(store.samples) + [added.value] && store.racks == old(store.racks) &&
        store.history == [CreateSampleRecord(old(store.racks), added.value, old(store.nextId), now)] + old(store.history) &&
        store.nextId == old(store.nextId) + 1 &&
        selectedCell == Some(spot.cell)
    {
      spot, added := AddSampleRequest(store, currentRackId, sampleId, comment, targetCell, now);
      if added.Some? {
        selectedCell := Some(spot.cell);
      }
    }

    /**
     * `handleRemoveSampleRequest`: an empty id or a declined confirmation changes nothing;
     * after a removal the selection is cleared only when it pointed at the removed
     * sample's row and column.
     */
    method HandleRemoveSampleRequest(sampleId: Id, confirmed: bool, now: Timestamp) returns (deleted: Option<Sample>)
      requires store.Valid()
      modifies this`selectedCell, store
      ensures store.Valid()
      ensures sampleId == "" || !confirmed ==> deleted.None? && unchanged(store) && selectedCell == old(selectedCell)
      ensures deleted.None? ==> unchanged(store) && selectedCell == old(selectedCell)
      ensures sampleId != "" && confirmed ==> (deleted.Some? <==> IdTaken(old(store.samples), sampleId))
      ensures deleted.Some? ==>
        deleted.value == old(store.samples)[SampleIndex(old(store.samples), sampleId)] &&
        store.samples == RemoveAt(old(store.samples), SampleIndex(old(store.samples), sampleId)) &&
        store.racks == old(store.racks) &&
        store.history == [DeleteSampleRecord(old(store.racks), deleted.value, old(store.nextId), now)] + old(store.history) &&
        store.nextId == old(store.nextId) + 1 &&
        selectedCell == if WasSelected(old(selectedCell), deleted.value) then None else old(selectedCell)
    {
      var wasSelected;
      deleted, wasSelected := RemoveSampleRequest(store, selectedCell, sampleId, confirmed, now);
      if deleted.Some? && wasSelected {
        selectedCell := None;
      }
    }
  }
}
