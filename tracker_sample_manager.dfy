/**
 * The sample page of the tracker (test_tube_tracker/js/sampleManager.js): which rack is
 * shown (`currentRackId`), which cell is selected (`selectedCell`), the search box, and
 * the add and remove requests it forwards to the store.
 */
module TrackerSampleManager {
  import opened Wrappers
  import opened Text
  import opened Arrays
  import opened DataStore
  import opened Placement

  /** `performSearch` shows at most this many results. */
  const SearchLimit: nat := 15

  /** The id, or a non-empty comment, contains the lowered query once lowered itself. */
  predicate SearchHit(s: Sample, lowerQuery: string) {
    Includes(Lower(s.id), lowerQuery) || (s.comment != "" && Includes(Lower(s.comment), lowerQuery))
  }

  function HitBy(lowerQuery: string): Sample -> bool {
    (s: Sample) => SearchHit(s, lowerQuery)
  }

  /** `performSearch`: the store's samples that match, in store order, cut at the limit. */
  function PerformSearch(samples: seq<Sample>, query: string): seq<Sample> {
    Take(Filter(samples, HitBy(Lower(query))), SearchLimit)
  }

  /** Every result is a sample of the store that matches the query. */
  lemma SearchSound(samples: seq<Sample>, query: string)
    ensures var matches := PerformSearch(samples, query);
      |matches| <= SearchLimit &&
      forall j :: 0 <= j < |matches| ==> matches[j] in samples && SearchHit(matches[j], Lower(query))
  {
    var hits := Filter(samples, HitBy(Lower(query)));
    FilterMembers(samples, HitBy(Lower(query)));
    var matches := PerformSearch(samples, query);
    forall j | 0 <= j < |matches| ensures matches[j] in samples && SearchHit(matches[j], Lower(query)) {
      assert matches[j] == hits[j];
    }
  }

  /** While no more samples match than the limit, every matching sample is shown. */
  lemma SearchComplete(samples: seq<Sample>, query: string)
    requires |Filter(samples, HitBy(Lower(query)))| <= SearchLimit
    ensures forall j :: 0 <= j < |samples| && SearchHit(samples[j], Lower(query)) ==> samples[j] in PerformSearch(samples, query)
  {
    FilterMembers(samples, HitBy(Lower(query)));
  }

  /** With more matches than the limit, exactly the limit is shown. */
  lemma SearchCapped(samples: seq<Sample>, query: string)
    requires |Filter(samples, HitBy(Lower(query)))| > SearchLimit
    ensures |PerformSearch(samples, query)| == SearchLimit
  {
  }

  /** A sample whose id contains the query as typed is found whatever the case of either. */
  lemma SearchIgnoresCase(s: Sample, query: string)
    requires Includes(s.id, query)
    ensures SearchHit(s, Lower(query))
  {
    IncludesLower(s.id, query);
  }

  /** The page state of the sample manager, over the store it calls. */
  class SampleManager {
    const store: Store
    var currentRackId: Option<Id>
    var selectedCell: Option<Cell>

    /** `init` ends in `resetPage`: no rack shown, nothing selected. */
    constructor(store: Store)
      ensures this.store == store && currentRackId == None && selectedCell == None
    {
      this.store := store;
      currentRackId := None;
      selectedCell := None;
    }

    /** `resetPage`: no rack shown, nothing selected. */
    method ResetPage()
      modifies this`currentRackId, this`selectedCell
      ensures currentRackId == None && selectedCell == None
    {
      currentRackId := None;
      selectedCell := None;
    }

    /** `switchRack`: an empty id changes nothing; otherwise the rack and the selection are set together. */
    method SwitchRack(rackId: Id, cellToSelect: Option<Cell>)
      modifies this`currentRackId, this`selectedCell
      ensures rackId == "" ==> currentRackId == old(currentRackId) && selectedCell == old(selectedCell)
      ensures rackId != "" ==> currentRackId == Some(rackId) && selectedCell == cellToSelect
    {
      if rackId == "" {
        return;
      }
      currentRackId := Some(rackId);
      selectedCell := cellToSelect;
    }

    /** `handleRackButtonClick`: a click on another rack switches to it with nothing selected. */
    method HandleRackButtonClick(clickedRackId: Id)
      modifies this`currentRackId, this`selectedCell
      ensures Some(clickedRackId) == old(currentRackId) || clickedRackId == "" ==>
        currentRackId == old(currentRackId) && selectedCell == old(selectedCell)
      ensures Some(clickedRackId) != old(currentRackId) && clickedRackId != "" ==>
        currentRackId == Some(clickedRackId) && selectedCell == None
    {
      if Some(clickedRackId) != currentRackId {
        SwitchRack(clickedRackId, None);
      }
    }

    /**
     * `handleSearchResultClick`: a result whose row or column does not parse, or whose
     * rack id is empty, is ignored; otherwise the page shows that rack with that cell selected.
     */
    method HandleSearchResultClick(targetRackId: Id, targetRow: Option<int>, targetCol: Option<int>)
      modifies this`currentRackId, this`selectedCell
      ensures targetRow.None? || targetCol.None? || targetRackId == "" ==>
        currentRackId == old(currentRackId) && selectedCell == old(selectedCell)
      ensures targetRow.Some? && targetCol.Some? && targetRackId != "" ==>
        currentRackId == Some(targetRackId) && selectedCell == Some(Cell(targetRow.value, targetCol.value))
    {
      if targetRow.None? || targetCol.None? || targetRackId == "" {
        return;
      }
      SwitchRack(targetRackId, Some(Cell(targetRow.value, targetCol.value)));
    }

    /** `handleCellSelected`: a click on the grid selects that cell. */
    method HandleCellSelected(row: int, col: int)
      modifies this`selectedCell
      ensures selectedCell == Some(Cell(row, col))
    {
      selectedCell := Some(Cell(row, col));
    }

    /** `handleAddSampleRequest`: on success the new sample's cell becomes the selection. */
    method HandleAddSampleRequest(sampleId: Id, comment: string, targetCell: Option<Cell>, now: Timestamp)
      returns (spot: Spot, added: Option<Sample>)
      requires store.Valid()
      modifies this`selectedCell, store
      ensures store.Valid()
      ensures PlacedBy(old(store.racks), old(store.samples), currentRackId, targetCell, spot)
      ensures !spot.At? ==> added.None?
      ensures added.None? ==> unchanged(store) && selectedCell == old(selectedCell)
      ensures spot.At? ==> (added.None? <==> IdTaken(old(store.samples), sampleId))
      ensures added.Some? ==>
        added.value == Sample(sampleId, currentRackId.value, spot.cell.row, spot.cell.col, comment, now, now) &&
        store.samples == old(store.samples) + [added.value] && store.racks == old(store.racks) &&
        store.history == [CreateSampleRecord(old(store.racks), added.value, old(store.nextId), now)] + old(store.history) &&
        store.nextId == old(store.nextId) + 1 &&
        selectedCell == Some(spot.cell)
    {
      spot, added := AddSampleRequest(store, currentRackId, sampleId, comment, targetCell, now);
      if added.Some? {
        selectedCell := Some(spot.cell);
      }
    }

    /**
     * `handleRemoveSampleRequest`: an empty id or a declined confirmation changes nothing;
     * after a removal the selection is cleared only when it pointed at the removed
     * sample's row and column.
     */
    method HandleRemoveSampleRequest(sampleId: Id, confirmed: bool, now: Timestamp) returns (deleted: Option<Sample>)
      requires store.Valid()
      modifies this`selectedCell, store
      ensures store.Valid()
      ensures sampleId == "" || !confirmed ==> deleted.None? && unchanged(store) && selectedCell == old(selectedCell)
      ensures deleted.None? ==> unchanged(store) && selectedCell == old(selectedCell)
      ensures sampleId != "" && confirmed ==> (deleted.Some? <==> IdTaken(old(store.samples), sampleId))
      ensures deleted.Some? ==>
        deleted.value == old(store.samples)[SampleIndex(old(store.samples), sampleId)] &&
        store.samples == RemoveAt(old(store.samples), SampleIndex(old(store.samples), sampleId)) &&
        store.racks == old(store.racks) &&
        store.history == [DeleteSampleRecord(old(store.racks), deleted.value, old(store.nextId), now)] + old(store.history) &&
        store.nextId == old(store.nextId) + 1 &&
        selectedCell == if WasSelected(old(selectedCell), deleted.value) then None else old(selectedCell)
    {
      var wasSelected;
      deleted, wasSelected := RemoveSampleRequest(store, selectedCell, sampleId, confirmed, now);
      if deleted.Some? && wasSelected {
        selectedCell := None;
      }
    }
  }
}
