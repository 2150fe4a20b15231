/**
 * The rack form and the delete buttons of the tracker's rack list
 * (test_tube_tracker/js/rackManager.js). Submitting the form either creates a rack or
 * edits one; an edit that shrinks the grid first removes, after confirmation, the
 * rack's samples that would fall outside it.
 */
module RackManager {
  import opened Wrappers
  import opened Text
  import opened Arrays
  import opened DataStore
  import TrackerSampleManager

  /** The form is accepted when the trimmed name is non-empty and both sizes parse to at least 1. */
  predicate ValidForm(name: string, rows: Option<int>, cols: Option<int>) {
    Trim(name) != "" && rows.Some? && rows.value >= 1 && cols.Some? && cols.value >= 1
  }

  /** The new size is smaller than the rack's in at least one direction. */
  predicate Shrinks(rack: Rack, rows: int, cols: int) {
    rows < rack.rows || cols < rack.cols
  }

  function OutOfBounds(rows: int, cols: int): Sample -> bool {
    (s: Sample) => s.row >= rows || s.col >= cols
  }

  /** `affectedSamples`: the rack's samples at or beyond the new last row or column. */
  function Affected(samples: seq<Sample>, id: Id, rows: int, cols: int): seq<Sample> {
    Filter(FindSamplesByRack(samples, id), OutOfBounds(rows, cols))
  }

  function IdsOf(ss: seq<Sample>): seq<Id> {
    seq(|ss|, j requires 0 <= j < |ss| => ss[j].id)
  }

  /** The samples after a confirmed edit: the affected ones are removed, by id, only when the grid shrinks. */
  function Resized(samples: seq<Sample>, id: Id, rack: Rack, rows: int, cols: int): seq<Sample> {
    var affected := Affected(samples, id, rows, cols);
    if Shrinks(rack, rows, cols) && affected != [] then Filter(samples, NotListed(IdsOf(affected))) else samples
  }

  /** The samples a confirmed edit deletes, in store order: the affected ones, when the grid shrinks. */
  function Pruned(samples: seq<Sample>, id: Id, rack: Rack, rows: int, cols: int): seq<Sample> {
    var affected := Affected(samples, id, rows, cols);
    if Shrinks(rack, rows, cols) && affected != [] then Filter(samples, Listed(IdsOf(affected))) else []
  }

  /** What a submission of the form ends in. */
  datatype Submit = Invalid | RackMissing | ResizeDeclined | Updated | Created(rack: Rack)

  /**
   * With distinct sample ids, an edit removes exactly the samples of the rack that lie
   * outside the new grid when it shrinks, and keeps every other sample.
   */
  lemma ResizedRemovesExactlyOutside(samples: seq<Sample>, id: Id, rack: Rack, rows: int, cols: int)
    requires SampleIdsDistinct(samples)
    ensures forall j :: 0 <= j < |samples| ==>
      (samples[j] in Resized(samples, id, rack, rows, cols) <==>
       !(Shrinks(rack, rows, cols) && samples[j].rackId == id && OutOfBounds(rows, cols)(samples[j])))
  {
    var inRack := FindSamplesByRack(samples, id);
    var affected := Affected(samples, id, rows, cols);
    FilterMembers(inRack, OutOfBounds(rows, cols));
    if Shrinks(rack, rows, cols) && affected != [] {
      var ids := IdsOf(affected);
      FilterMembers(samples, NotListed(ids));
      forall j | 0 <= j < |samples|
        ensures samples[j] in Resized(samples, id, rack, rows, cols) <==>
          !(samples[j].rackId == id && OutOfBounds(rows, cols)(samples[j]))
      {
        var s := samples[j];
        if s.rackId == id && OutOfBounds(rows, cols)(s) {
          var k :| 0 <= k < |affected| && affected[k] == s;
          assert ids[k] == s.id;
          assert !NotListed(ids)(s);
        }
      }
    }
  }

  /** Rack lists with the same ids position by position find every id at the same index. */
  lemma RackIndexSameIds(a: seq<Rack>, b: seq<Rack>, x: Id)
    requires |a| == |b| && forall j :: 0 <= j < |a| ==> a[j].id == b[j].id
    ensures RackIndex(a, x) == RackIndex(b, x)
  {
    var ka, kb := RackIndex(a, x), RackIndex(b, x);
    if ka >= 0 && kb >= 0 {
      assert a[kb].id == x && b[ka].id == x;
    }
  }

  /** Renaming or resizing a rack keeps the ids of all racks, so each id still finds its rack. */
  lemma FindRackAfterEdit(racks: seq<Rack>, id: Id, r: Rack, x: Id)
    requires RackIndex(racks, id) >= 0 && r.id == id
    ensures FindRackById(racks[RackIndex(racks, id) := r], x) == if x == id then Some(r) else FindRackById(racks, x)
  {
    var i := RackIndex(racks, id);
    var after := racks[i := r];
    RackIndexSameIds(after, racks, x);
  }

  /**
   * A confirmed edit keeps a consistent store consistent: in particular every sample of the
   * edited rack lies inside its new grid.
   */
  lemma EditKeepsConsistent(racks: seq<Rack>, samples: seq<Sample>, id: Id, data: RackData, now: Timestamp)
    requires Consistent(racks, samples) && RackIndex(racks, id) >= 0
    ensures var i := RackIndex(racks, id);
      Consistent(racks[i := Merged(racks[i], data, now)], Resized(samples, id, racks[i], data.rows, data.cols))
  {
    var i := RackIndex(racks, id);
    var r := Merged(racks[i], data, now);
    var after := Resized(samples, id, racks[i], data.rows, data.cols);
    var affected := Affected(samples, id, data.rows, data.cols);
    if Shrinks(racks[i], data.rows, data.cols) && affected != [] {
      var p := NotListed(IdsOf(affected));
      FilterKeepsPairwise(samples, p, (a: Sample, b: Sample) => a.id != b.id);
      FilterKeepsPairwise(samples, p, (a: Sample, b: Sample) => !SameCell(a, b));
      FilterMembers(samples, p);
    }
    ResizedRemovesExactlyOutside(samples, id, racks[i], data.rows, data.cols);
    FilterMembers(FindSamplesByRack(samples, id), OutOfBounds(data.rows, data.cols));
    forall j | 0 <= j < |after| ensures Placed(racks[i := r], after[j]) {
      var s := after[j];
      var k :| 0 <= k < |samples| && samples[k] == s;
      FindRackAfterEdit(racks, id, r, s.rackId);
      if s.rackId == id && !Shrinks(racks[i], data.rows, data.cols) {
        assert Placed(racks, samples[k]);
      } else if s.rackId == id && affected == [] {
        assert samples[k] in FindSamplesByRack(samples, id);
        assert !OutOfBounds(data.rows, data.cols)(s);
      } else {
        assert Placed(racks, samples[k]);
      }
    }
  }

  /** Every affected sample is in the store, so deleting the affected ids removes at least one sample. */
  lemma AffectedAreDeleted(samples: seq<Sample>, id: Id, rows: int, cols: int)
    requires Affected(samples, id, rows, cols) != []
    ensures Filter(samples, Listed(IdsOf(Affected(samples, id, rows, cols)))) != []
  {
    var affected := Affected(samples, id, rows, cols);
    FilterMembers(FindSamplesByRack(samples, id), OutOfBounds(rows, cols));
    var k :| 0 <= k < |samples| && samples[k] == affected[0];
    assert IdsOf(affected)[0] == samples[k].id;
    FilterMembers(samples, Listed(IdsOf(affected)));
  }

  /**
   * The resize step of `handleFormSubmit`: when the grid shrinks and some of the rack's
   * samples fall outside it, the user is asked; a refusal changes nothing, a confirmation
   * deletes those samples by id.
   */
  method PruneForResize(store: Store, id: Id, rack: Rack, rows: int, cols: int, confirmResize: bool, now: Timestamp)
    returns (declined: bool)
    requires store.Valid()
    modifies store
    ensures store.Valid()
    ensures declined <==> Shrinks(rack, rows, cols) && Affected(old(store.samples), id, rows, cols) != [] && !confirmResize
    ensures declined ==> unchanged(store)
    ensures !declined ==>
      store.samples == Resized(old(store.samples), id, rack, rows, cols) && store.racks == old(store.racks) &&
      store.history == DeletionRecords(Pruned(old(store.samples), id, rack, rows, cols), old(store.nextId), now, ResizeDetails) +
                       old(store.history) &&
      store.nextId == old(store.nextId) + |Pruned(old(store.samples), id, rack, rows, cols)|
  {
    declined := false;
    if rows < rack.rows || cols < rack.cols {
      var affected := Affected(store.samples, id, rows, cols);
      if |affected| > 0 {
        if !confirmResize {
          return true;
        }
        AffectedAreDeleted(store.samples, id, rows, cols);
        var count := store.DeleteSamples(IdsOf(affected), now);
      }
    }
  }

  /**
   * `handleFormSubmit`. An invalid form, an unknown rack id, or a declined resize changes
   * nothing. An empty id creates a rack. Otherwise the affected samples are deleted, then
   * the rack is updated.
   */
  method HandleFormSubmit(store: Store, id: Id, nameInput: string, rows: Option<int>, cols: Option<int>,
                          confirmResize: bool, now: Timestamp)
    returns (outcome: Submit)
    requires store.Valid()
    modifies store
    ensures store.Valid()
    ensures outcome.Invalid? <==> !ValidForm(nameInput, rows, cols)
    ensures outcome.Invalid? || outcome.RackMissing? || outcome.ResizeDeclined? ==> unchanged(store)
    ensures outcome.Created? <==> ValidForm(nameInput, rows, cols) && id == ""
    ensures outcome.Updated? <==>
      ValidForm(nameInput, rows, cols) && id != "" && RackIndex(old(store.racks), id) >= 0 &&
      !(Shrinks(old(store.racks)[RackIndex(old(store.racks), id)], rows.value, cols.value) &&
        Affected(old(store.samples), id, rows.value, cols.value) != [] && !confirmResize)
    ensures ValidForm(nameInput, rows, cols) && id != "" ==>
      (outcome.RackMissing? <==> RackIndex(old(store.racks), id) == -1)
    ensures outcome.ResizeDeclined? <==>
      ValidForm(nameInput, rows, cols) && id != "" && RackIndex(old(store.racks), id) >= 0 &&
      Shrinks(old(store.racks)[RackIndex(old(store.racks), id)], rows.value, cols.value) &&
      Affected(old(store.samples), id, rows.value, cols.value) != [] && !confirmResize
    ensures outcome.Created? ==>
      outcome.rack == Rack(FreshId(old(store.nextId)), Trim(nameInput), rows.value, cols.value, now, now) &&
      store.racks == old(store.racks) + [outcome.rack] && store.samples == old(store.samples) &&
      store.history == [CreateRackRecord(outcome.rack, old(store.nextId) + 1, now)] + old(store.history) &&
      store.nextId == old(store.nextId) + 2
    ensures outcome.Updated? ==>
      var i := RackIndex(old(store.racks), id);
      0 <= i &&
      var r := Merged(old(store.racks)[i], RackData(Trim(nameInput), rows.value, cols.value), now);
      var pruned := Pruned(old(store.samples), id, old(store.racks)[i], rows.value, cols.value);
      store.racks == old(store.racks)[i := r] &&
      store.samples == Resized(old(store.samples), id, old(store.racks)[i], rows.value, cols.value) &&
      store.history == [ModifyRackRecord(old(store.racks)[i], r, old(store.nextId) + |pruned|, now)] +
                       (DeletionRecords(pruned, old(store.nextId), now, ResizeDetails) + old(store.history)) &&
      store.nextId == old(store.nextId) + |pruned| + 1
    ensures outcome.Updated? && Consistent(old(store.racks), old(store.samples)) ==>
      Consistent(store.racks, store.samples)
  {
    var name := Trim(nameInput);
    if name == "" || rows.None? || rows.value < 1 || cols.None? || cols.value < 1 {
      return Invalid;
    }
    var data := RackData(name, rows.value, cols.value);
    if id == "" {
      var rack := store.AddRack(data, now);
      return Created(rack);
    }
    var oldRack := FindRackById(store.racks, id);
    if oldRack.None? {
      return RackMissing;
    }
    ghost var racks0, samples0 := store.racks, store.samples;
    ghost var i := RackIndex(racks0, id);
    assert oldRack.value == racks0[i];
    var declined := PruneForResize(store, id, oldRack.value, rows.value, cols.value, confirmResize, now);
    if declined {
      return ResizeDeclined;
    }
    assert store.samples == Resized(samples0, id, racks0[i], rows.value, cols.value) && store.racks == racks0;
    var updated := store.UpdateRack(id, data, now);
    if Consistent(racks0, samples0) {
      EditKeepsConsistent(racks0, samples0, id, data, now);
    }
    outcome := Updated;
  }

  /**
   * `handleDeleteClick`: a known rack whose deletion is confirmed is deleted with its
   * samples, and the sample page is reset when it was showing that rack.
   */
  method HandleDeleteClick(store: Store, page: TrackerSampleManager.SampleManager, id: Id, confirmed: bool, now: Timestamp)
    returns (deleted: Option<Rack>)
    requires store.Valid()
    modifies store, page`currentRackId, page`selectedCell
    ensures store.Valid()
    ensures deleted.Some? <==> confirmed && RackIndex(old(store.racks), id) >= 0
    ensures deleted.None? ==>
      unchanged(store) && page.currentRackId == old(page.currentRackId) && page.selectedCell == old(page.selectedCell)
    ensures deleted.Some? ==>
      store.racks == RemoveAt(old(store.racks), RackIndex(old(store.racks), id)) &&
      store.samples == Filter(old(store.samples), NotInRack(id)) &&
      var rack := old(store.racks)[RackIndex(old(store.racks), id)];
      var doomed := FindSamplesByRack(old(store.samples), id);
      store.history == [DeleteRackRecord(rack, old(store.nextId) + |doomed|, now)] +
                       (DeletionRecords(doomed, old(store.nextId), now, CascadeDetails(rack)) + old(store.history)) &&
      store.nextId == old(store.nextId) + |doomed| + 1
    ensures deleted.Some? ==>
      if old(page.currentRackId) == Some(id) then page.currentRackId == None && page.selectedCell == None
      else page.currentRackId == old(page.currentRackId) && page.selectedCell == old(page.selectedCell)
  {
    var rack := FindRackById(store.racks, id);
    if rack.None? || !confirmed {
      return None;
    }
    deleted := store.DeleteRack(id, now);
    if page.currentRackId == Some(id) {
      page.ResetPage();
    }
  }
}
