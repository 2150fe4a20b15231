/**
 * The in-memory store of test_tube_tracker/js/dataStore.js: racks, samples and a
 * newest-first history of change records. Deletes are hard (entries are spliced
 * out), deleting a rack cascades to its samples, every change prepends a record
 * carrying before/after snapshots, and `restoreEntity` undoes a DELETE or MODIFY
 * record after re-checking it against the present state. Saving is a two-flag
 * machine (`isSaving`, `saveQueued`) that never runs two saves at once.
 *
 * Ids from `generateId` come from a counter (`FreshId`), and every timestamp an
 * operation takes is its `now` parameter.
 */
module DataStore {
  import opened Wrappers
  import opened Text
  import opened Arrays

  type Id = string
  type Timestamp = string

  datatype Rack = Rack(id: Id, name: string, rows: int, cols: int, createdAt: Timestamp, modifiedAt: Timestamp)

  /** A sample sits in cell (row, col) of its rack, both 0-based. */
  datatype Sample = Sample(id: Id, rackId: Id, row: int, col: int, comment: string, createdAt: Timestamp, modifiedAt: Timestamp)

  /** The fields callers pass to `addRack` and `updateRack`. */
  datatype RackData = RackData(name: string, rows: int, cols: int)

  /** The fields callers pass to `addSample`. */
  datatype SampleData = SampleData(id: Id, rackId: Id, row: int, col: int, comment: string)

  /** A snapshot held by a history record. */
  datatype Entity = RackState(rack: Rack) | SampleState(sample: Sample)

  datatype Action = Create | Modify | Delete | Restore
  datatype EntityType = RackType | SampleType

  datatype Record = Record(
    id: Id,
    timestamp: Timestamp,
    action: Action,
    entityType: EntityType,
    entityId: Id,
    details: string,
    previousState: Option<Entity>,
    currentState: Option<Entity>)

  /** The three arrays, as a save copies them and the server holds them. */
  datatype StoreData = StoreData(racks: seq<Rack>, samples: seq<Sample>, history: seq<Record>)

  /** What the `/api/data` request of `load` yields: the three arrays, each possibly absent, or an error. */
  datatype LoadResponse = Loaded(racks: Option<seq<Rack>>, samples: Option<seq<Sample>>, history: Option<seq<Record>>) | LoadFailed

  /** Why `restoreEntity` refuses a record. */
  datatype RestoreError =
    | MissingPreviousState
    | RackExists
    | RackNotFound
    | SampleExists
    | OriginalRackNotFound
    | OutOfBounds
    | CellOccupied
    | SampleNotFound
    | Unsupported

  /** The id `generateId` hands out as its n-th call. */
  function FreshId(n: nat): Id {
    "id" + NatToString(n)
  }

  // ---- Getters ----

  /** `racks.findIndex(r => r.id === id)`. */
  function RackIndex(racks: seq<Rack>, id: Id): (i: int)
    ensures -1 <= i < |racks|
    ensures 0 <= i ==> racks[i].id == id && forall j :: 0 <= j < i ==> racks[j].id != id
    ensures i == -1 <==> forall j :: 0 <= j < |racks| ==> racks[j].id != id
  {
    FindIndex(racks, (r: Rack) => r.id == id)
  }

  /** `findRackById`: the first rack with that id. */
  function FindRackById(racks: seq<Rack>, id: Id): (found: Option<Rack>)
    ensures found.Some? <==> exists j :: 0 <= j < |racks| && racks[j].id == id
    ensures found.Some? ==> found.value.id == id && found.value == racks[RackIndex(racks, id)]
  {
    var i := RackIndex(racks, id);
    if i < 0 then None else Some(racks[i])
  }

  /** `samples.findIndex(s => s.id === id)`. */
  function SampleIndex(samples: seq<Sample>, id: Id): (i: int)
    ensures -1 <= i < |samples|
    ensures 0 <= i ==> samples[i].id == id && forall j :: 0 <= j < i ==> samples[j].id != id
    ensures i == -1 <==> !IdTaken(samples, id)
  {
    FindIndex(samples, (s: Sample) => s.id == id)
  }

  /** `findSampleById`: the first sample with that id. */
  function FindSampleById(samples: seq<Sample>, id: Id): (found: Option<Sample>)
    ensures found.Some? <==> IdTaken(samples, id)
    ensures found.Some? ==> found.value.id == id && found.value == samples[SampleIndex(samples, id)]
  {
    var i := SampleIndex(samples, id);
    if i < 0 then None else Some(samples[i])
  }

  predicate IdTaken(samples: seq<Sample>, id: Id) {
    exists j :: 0 <= j < |samples| && samples[j].id == id
  }

  predicate Occupies(s: Sample, rackId: Id, row: int, col: int) {
    s.rackId == rackId && s.row == row && s.col == col
  }

  predicate CellTaken(samples: seq<Sample>, rackId: Id, row: int, col: int) {
    exists j :: 0 <= j < |samples| && Occupies(samples[j], rackId, row, col)
  }

  /** `findSampleByLocation`: the first sample in that cell of that rack. */
  function FindSampleByLocation(samples: seq<Sample>, rackId: Id, row: int, col: int): (found: Option<Sample>)
    ensures found.Some? <==> CellTaken(samples, rackId, row, col)
    ensures found.Some? ==> found.value in samples && Occupies(found.value, rackId, row, col)
  {
    var i := FindIndex(samples, (s: Sample) => Occupies(s, rackId, row, col));
    if i < 0 then None else Some(samples[i])
  }

  function InRack(rackId: Id): Sample -> bool {
    (s: Sample) => s.rackId == rackId
  }

  function NotInRack(rackId: Id): Sample -> bool {
    (s: Sample) => s.rackId != rackId
  }

  /** `findSamplesByRack`: the rack's samples, in store order. */
  function FindSamplesByRack(samples: seq<Sample>, rackId: Id): (found: seq<Sample>)
    ensures forall j :: 0 <= j < |found| ==> found[j].rackId == rackId && found[j] in samples
    ensures forall j :: 0 <= j < |samples| && samples[j].rackId == rackId ==> samples[j] in found
  {
    FilterMembers(samples, InRack(rackId));
    Filter(samples, InRack(rackId))
  }

  function Listed(ids: seq<Id>): Sample -> bool {
    (s: Sample) => s.id in ids
  }

  function NotListed(ids: seq<Id>): Sample -> bool {
    (s: Sample) => s.id !in ids
  }

  // ---- Record contents ----

  /** `rack?.name || 'N/A'`: the name of the sample's rack, or N/A when it is missing or empty. */
  function RackNameOrNA(racks: seq<Rack>, rackId: Id): (name: string)
    ensures name != []
    ensures FindRackById(racks, rackId).Some? && FindRackById(racks, rackId).value.name != [] ==>
      name == FindRackById(racks, rackId).value.name
  {
    match FindRackById(racks, rackId)
    case Some(r) => if r.name == "" then "N/A" else r.name
    case None => "N/A"
  }

  /** The 1-based "(row, col)" a record shows for a 0-based cell. */
  function CellText(row: int, col: int): string {
    "(" + IntToString(row + 1) + ", " + IntToString(col + 1) + ")"
  }

  /** `{ ...oldRack, ...updatedData, modifiedAt }`. */
  function Merged(prior: Rack, data: RackData, now: Timestamp): (r: Rack)
    ensures r.id == prior.id && r.createdAt == prior.createdAt
    ensures r.name == data.name && r.rows == data.rows && r.cols == data.cols && r.modifiedAt == now
  {
    prior.(name := data.name, rows := data.rows, cols := data.cols, modifiedAt := now)
  }

  /** The DELETE record of one sample. */
  function SampleDeleted(s: Sample, n: nat, now: Timestamp, details: string): Record {
    Record(FreshId(n), now, Delete, SampleType, s.id, details, Some(SampleState(s)), None)
  }

  /** The CREATE record `addRack` logs, with the counter at `n`. */
  function CreateRackRecord(rack: Rack, n: nat, now: Timestamp): Record {
    Record(FreshId(n), now, Create, RackType, rack.id, "Rack created: " + rack.name, None, Some(RackState(rack)))
  }

  /** The MODIFY record `updateRack` logs: the rack before and after the merge. */
  function ModifyRackRecord(prior: Rack, r: Rack, n: nat, now: Timestamp): Record {
    Record(FreshId(n), now, Modify, RackType, r.id, "Rack modified: " + r.name, Some(RackState(prior)), Some(RackState(r)))
  }

  /** The rack's own DELETE record, which `deleteRack` logs after those of its samples. */
  function DeleteRackRecord(rack: Rack, n: nat, now: Timestamp): Record {
    Record(FreshId(n), now, Delete, RackType, rack.id, "Rack deleted: " + rack.name, Some(RackState(rack)), None)
  }

  /** The details of each sample DELETE record `deleteRack` logs. */
  function CascadeDetails(rack: Rack): string {
    "Sample deleted due to rack deletion (Rack: " + rack.name + ")"
  }

  /** The details of each sample DELETE record `deleteSamples` logs. */
  const ResizeDetails := "Sample removed (potentially due to rack resize)"

  /** The CREATE record `addSample` logs, naming the sample's rack as `racks` has it. */
  function CreateSampleRecord(racks: seq<Rack>, s: Sample, n: nat, now: Timestamp): Record {
    Record(FreshId(n), now, Create, SampleType, s.id,
           "Sample added to Rack " + RackNameOrNA(racks, s.rackId) + " at " + CellText(s.row, s.col),
           None, Some(SampleState(s)))
  }

  /** The DELETE record `deleteSample` logs, naming the sample's rack as `racks` has it. */
  function DeleteSampleRecord(racks: seq<Rack>, s: Sample, n: nat, now: Timestamp): Record {
    SampleDeleted(s, n, now, "Sample removed from Rack " + RackNameOrNA(racks, s.rackId) + " at " + CellText(s.row, s.col))
  }

  /** The RESTORE record `restoreEntity` logs: the entry's two states, swapped. */
  function RestoreRecord(entry: Record, n: nat, now: Timestamp): Record
    requires entry.previousState.Some?
  {
    Record(FreshId(n), now, Restore, entry.entityType, entry.entityId,
           RestoreDescription(entry), entry.currentState, entry.previousState)
  }

  /**
   * The records logged, one `logHistory` call per sample in order, for `doomed` when the
   * counter starts at `n`: since each is prepended, the last sample's record comes first.
   */
  function DeletionRecords(doomed: seq<Sample>, n: nat, now: Timestamp, details: string): (log: seq<Record>)
    ensures |log| == |doomed|
    decreases |doomed|
  {
    if doomed == [] then []
    else
      [SampleDeleted(doomed[|doomed| - 1], n + |doomed| - 1, now, details)] +
      DeletionRecords(doomed[..|doomed| - 1], n, now, details)
  }

  /**
   * The k-th newest of these records is the DELETE of the k-th sample from the end,
   * carrying the id the counter gave it.
   */
  lemma {:induction false} DeletionRecordsAt(doomed: seq<Sample>, n: nat, now: Timestamp, details: string, k: nat)
    requires k < |doomed|
    ensures DeletionRecords(doomed, n, now, details)[k] ==
      SampleDeleted(doomed[|doomed| - 1 - k], n + |doomed| - 1 - k, now, details)
    decreases |doomed|
  {
    if k > 0 {
      var init := doomed[..|doomed| - 1];
      DeletionRecordsAt(init, n, now, details, k - 1);
      assert init[|init| - 1 - (k - 1)] == doomed[|doomed| - 1 - k];
    }
  }

  /** Logging one more sample's deletion prepends its record. */
  lemma DeletionRecordsStep(doomed: seq<Sample>, j: nat, n: nat, now: Timestamp, details: string, older: seq<Record>)
    requires j < |doomed|
    ensures DeletionRecords(doomed[..j + 1], n, now, details) + older ==
      [SampleDeleted(doomed[j], n + j, now, details)] + (DeletionRecords(doomed[..j], n, now, details) + older)
  {
    assert doomed[..j + 1][..j] == doomed[..j];
  }

  // ---- Restore ----

  predicate SnapshotMatches(t: EntityType, e: Entity) {
    (t == RackType && e.RackState?) || (t == SampleType && e.SampleState?)
  }

  /**
   * The refusal `restoreEntity` gives for `entry` against the present racks and samples,
   * or None when it restores.
   */
  function RestoreFailure(racks: seq<Rack>, samples: seq<Sample>, entry: Record): Option<RestoreError>
  {
    if entry.previousState.None? then Some(MissingPreviousState)
    else if !(entry.action == Delete || entry.action == Modify) then Some(Unsupported)
    else if !SnapshotMatches(entry.entityType, entry.previousState.value) then Some(Unsupported)
    else match entry.previousState.value
      case RackState(_) =>
        var i := RackIndex(racks, entry.entityId);
        if entry.action == Delete then (if i >= 0 then Some(RackExists) else None)
        else if i < 0 then Some(RackNotFound) else None
      case SampleState(s) =>
        if entry.action == Delete then
          if SampleIndex(samples, entry.entityId) >= 0 then Some(SampleExists)
          else match FindRackById(racks, s.rackId)
            case None => Some(OriginalRackNotFound)
            case Some(rack) =>
              if s.row >= rack.rows || s.col >= rack.cols then Some(OutOfBounds)
              else if FindSampleByLocation(samples, s.rackId, s.row, s.col).Some? then Some(CellOccupied)
              else None
        else if SampleIndex(samples, entry.entityId) < 0 then Some(SampleNotFound)
        else None
  }

  /** The racks and samples after `restoreEntity` accepts `entry`: the snapshot is back in place. */
  function ApplyRestore(racks: seq<Rack>, samples: seq<Sample>, entry: Record): (seq<Rack>, seq<Sample>)
    requires RestoreFailure(racks, samples, entry).None?
  {
    match entry.previousState.value
    case RackState(r) =>
      if entry.action == Delete then (racks + [r], samples)
      else
        (racks[RackIndex(racks, entry.entityId) := r], samples)
    case SampleState(s) =>
      if entry.action == Delete then (racks, samples + [s])
      else
        (racks, samples[SampleIndex(samples, entry.entityId) := s])
  }

  /**
   * Which records restore refuses whatever the state: those without a previous state,
   * and CREATE and RESTORE records; and what an accepted DELETE or MODIFY needs of the
   * present racks and samples.
   */
  lemma RestoreRefusals(racks: seq<Rack>, samples: seq<Sample>, entry: Record)
    ensures entry.previousState.None? ==> RestoreFailure(racks, samples, entry) == Some(MissingPreviousState)
    ensures entry.action == Create || entry.action == Restore ==> RestoreFailure(racks, samples, entry).Some?
    ensures RestoreFailure(racks, samples, entry).None? && entry.action == Delete && entry.entityType == RackType ==>
      forall j :: 0 <= j < |racks| ==> racks[j].id != entry.entityId
    ensures RestoreFailure(racks, samples, entry).None? && entry.action == Modify && entry.entityType == RackType ==>
      exists j :: 0 <= j < |racks| && racks[j].id == entry.entityId
    ensures RestoreFailure(racks, samples, entry).None? && entry.action == Modify && entry.entityType == SampleType ==>
      IdTaken(samples, entry.entityId)
  {
  }

  /**
   * A sample's DELETE record is restored exactly when no sample has its id, its rack
   * still exists, the cell is inside the rack's present size and no sample occupies it.
   */
  lemma SampleRestoreAllowedIff(racks: seq<Rack>, samples: seq<Sample>, entry: Record)
    requires entry.action == Delete && entry.entityType == SampleType
    requires entry.previousState.Some? && entry.previousState.value.SampleState?
    ensures var s := entry.previousState.value.sample;
      var rack := FindRackById(racks, s.rackId);
      RestoreFailure(racks, samples, entry).None? <==>
        !IdTaken(samples, entry.entityId) && rack.Some? &&
        s.row < rack.value.rows && s.col < rack.value.cols &&
        !CellTaken(samples, s.rackId, s.row, s.col)
  {
  }

  /** An accepted restore puts the snapshot back into its array, growing it only for a DELETE, and leaves the other array alone. */
  lemma ApplyRestorePutsBack(racks: seq<Rack>, samples: seq<Sample>, entry: Record)
    requires RestoreFailure(racks, samples, entry).None?
    ensures var after := ApplyRestore(racks, samples, entry);
      match entry.previousState.value
      case RackState(r) =>
        after.1 == samples && r in after.0 && |after.0| == |racks| + (if entry.action == Delete then 1 else 0)
      case SampleState(s) =>
        after.0 == racks && s in after.1 && |after.1| == |samples| + (if entry.action == Delete then 1 else 0)
  {
    var after := ApplyRestore(racks, samples, entry);
    match entry.previousState.value
    case RackState(r) =>
      var k := if entry.action == Delete then |racks| else RackIndex(racks, entry.entityId);
      assert after.0[k] == r;
    case SampleState(s) =>
      var k := if entry.action == Delete then |samples| else SampleIndex(samples, entry.entityId);
      assert after.1[k] == s;
  }

  /** The `details` of the RESTORE record. */
  function RestoreDescription(entry: Record): string
    requires entry.previousState.Some?
  {
    match entry.previousState.value
    case RackState(r) =>
      (if entry.action == Delete then "Restored deleted rack: " else "Restored modified rack: ") + r.name
    case SampleState(_) =>
      (if entry.action == Delete then "Restored deleted sample: " else "Restored modified sample: ") + entry.entityId
  }

  // ---- Store invariants ----

  predicate SampleIdsDistinct(samples: seq<Sample>) {
    forall i, j :: 0 <= i < j < |samples| ==> samples[i].id != samples[j].id
  }

  predicate SameCell(a: Sample, b: Sample) {
    a.rackId == b.rackId && a.row == b.row && a.col == b.col
  }

  predicate CellsDistinct(samples: seq<Sample>) {
    forall i, j :: 0 <= i < j < |samples| ==> !SameCell(samples[i], samples[j])
  }

  predicate RackIdsDistinct(racks: seq<Rack>) {
    forall i, j :: 0 <= i < j < |racks| ==> racks[i].id != racks[j].id
  }

  /** The sample's rack exists and the sample lies inside it. */
  predicate Placed(racks: seq<Rack>, s: Sample) {
    var rack := FindRackById(racks, s.rackId);
    rack.Some? && 0 <= s.row < rack.value.rows && 0 <= s.col < rack.value.cols
  }

  /** Distinct sample ids, one sample per cell, and every sample inside an existing rack. */
  predicate Consistent(racks: seq<Rack>, samples: seq<Sample>) {
    SampleIdsDistinct(samples) && CellsDistinct(samples) &&
    forall j :: 0 <= j < |samples| ==> Placed(racks, samples[j])
  }

  // ---- Lemmas ----

  /** Restoring the DELETE record of a sample of a consistent store puts the store back as it was. */
  lemma DeleteSampleRestoreRoundTrip(racks: seq<Rack>, samples: seq<Sample>, i: nat, recId: Id, now: Timestamp, details: string)
    requires Consistent(racks, samples) && i < |samples|
    ensures var entry := Record(recId, now, Delete, SampleType, samples[i].id, details, Some(SampleState(samples[i])), None);
      var after := RemoveAt(samples, i);
      RestoreFailure(racks, after, entry).None? &&
      multiset(ApplyRestore(racks, after, entry).1) == multiset(samples)
  {
    var s := samples[i];
    var after := RemoveAt(samples, i);
    forall j | 0 <= j < |after|
      ensures after[j].id != s.id && !Occupies(after[j], s.rackId, s.row, s.col)
    {
      var k := if j < i then j else j + 1;
      assert after[j] == samples[k] && k != i;
      assert !SameCell(samples[k], s) by {
        if k < i { assert !SameCell(samples[k], samples[i]); } else { assert !SameCell(samples[i], samples[k]); }
      }
    }
    var entry := Record(recId, now, Delete, SampleType, s.id, details, Some(SampleState(s)), None);
    assert Placed(racks, samples[i]);
    assert !IdTaken(after, s.id) && !CellTaken(after, s.rackId, s.row, s.col);
    SampleRestoreAllowedIff(racks, after, entry);
    assert ApplyRestore(racks, after, entry).1 == after + [s];
    RemoveAtMultiset(samples, i);
  }

  /** Restoring the DELETE record of a rack (with distinct rack ids) brings back the same racks. */
  lemma DeleteRackRestoreRoundTrip(racks: seq<Rack>, samples: seq<Sample>, i: nat, recId: Id, now: Timestamp, details: string)
    requires RackIdsDistinct(racks) && i < |racks|
    ensures var entry := Record(recId, now, Delete, RackType, racks[i].id, details, Some(RackState(racks[i])), None);
      var after := RemoveAt(racks, i);
      RestoreFailure(after, samples, entry).None? &&
      multiset(ApplyRestore(after, samples, entry).0) == multiset(racks) &&
      ApplyRestore(after, samples, entry).1 == samples
  {
    var r := racks[i];
    var after := RemoveAt(racks, i);
    forall j | 0 <= j < |after| ensures after[j].id != r.id {
      if j < i { assert after[j] == racks[j]; } else { assert after[j] == racks[j + 1]; }
    }
    var entry := Record(recId, now, Delete, RackType, r.id, details, Some(RackState(r)), None);
    assert RackIndex(after, r.id) == -1;
    assert ApplyRestore(after, samples, entry) == (after + [r], samples);
    RemoveAtMultiset(racks, i);
  }

  /** Restoring the MODIFY record `updateRack` logs gives back exactly the racks before the update. */
  lemma UpdateRackRestoreRoundTrip(racks: seq<Rack>, samples: seq<Sample>, id: Id, data: RackData, now: Timestamp, recId: Id, details: string)
    requires RackIndex(racks, id) >= 0
    ensures var i := RackIndex(racks, id);
      var updated := Merged(racks[i], data, now);
      var after := racks[i := updated];
      var entry := Record(recId, now, Modify, RackType, id, details, Some(RackState(racks[i])), Some(RackState(updated)));
      RestoreFailure(after, samples, entry).None? &&
      ApplyRestore(after, samples, entry) == (racks, samples)
  {
    var i := RackIndex(racks, id);
    var after := racks[i := Merged(racks[i], data, now)];
    assert forall j :: 0 <= j < i ==> after[j] == racks[j];
    assert after[i].id == id;
    assert RackIndex(after, id) == i;
    assert after[i := racks[i]] == racks;
  }

  /** Deleting a rack the way `deleteRack` does leaves every remaining sample inside an existing rack. */
  lemma DeleteRackKeepsSamplesPlaced(racks: seq<Rack>, samples: seq<Sample>, id: Id)
    requires RackIndex(racks, id) >= 0
    requires forall j :: 0 <= j < |samples| ==> Placed(racks, samples[j])
    ensures var rest := Filter(samples, NotInRack(id));
      forall j :: 0 <= j < |rest| ==> Placed(RemoveAt(racks, RackIndex(racks, id)), rest[j])
  {
    var i := RackIndex(racks, id);
    var rest := Filter(samples, NotInRack(id));
    FilterMembers(samples, NotInRack(id));
    forall j | 0 <= j < |rest| ensures Placed(RemoveAt(racks, i), rest[j]) {
      var s := rest[j];
      assert s.rackId != id;
      var k :| 0 <= k < |samples| && samples[k] == s;
      assert Placed(racks, samples[k]);
      FindRackSkipsRemoved(racks, i, s.rackId);
    }
  }

  /** Removing a rack whose id differs from `rid` does not change which rack `findRackById(rid)` finds. */
  lemma FindRackSkipsRemoved(racks: seq<Rack>, i: nat, rid: Id)
    requires i < |racks| && racks[i].id != rid
    ensures FindRackById(RemoveAt(racks, i), rid) == FindRackById(racks, rid)
  {
    var rest := RemoveAt(racks, i);
    var a, b := RackIndex(racks, rid), RackIndex(rest, rid);
    if a >= 0 {
      var expected := if a < i then a else a - 1;
      assert rest[expected] == racks[a];
      assert forall j :: 0 <= j < expected ==> rest[j].id != rid;
      assert b == expected;
    } else {
      assert forall j :: 0 <= j < |rest| ==> rest[j].id != rid;
    }
  }

  /** A sample DELETE record accepted by restore keeps a consistent store consistent. */
  lemma RestoreSampleKeepsConsistent(racks: seq<Rack>, samples: seq<Sample>, entry: Record)
    requires Consistent(racks, samples)
    requires entry.action == Delete && entry.entityType == SampleType
    requires entry.previousState.Some? && entry.previousState.value.SampleState?
    requires entry.previousState.value.sample.id == entry.entityId
    requires 0 <= entry.previousState.value.sample.row && 0 <= entry.previousState.value.sample.col
    requires RestoreFailure(racks, samples, entry).None?
    ensures Consistent(racks, ApplyRestore(racks, samples, entry).1)
  {
    var s := entry.previousState.value.sample;
    var after := samples + [s];
    assert ApplyRestore(racks, samples, entry).1 == after;
    SampleRestoreAllowedIff(racks, samples, entry);
    AddSampleKeepsDistinct(samples, s);
    assert Placed(racks, s);
    forall j | 0 <= j < |after| ensures Placed(racks, after[j]) {
      if j < |samples| { assert after[j] == samples[j]; }
    }
  }

  /** The two guards of `addSample` are what keeps sample ids and occupied cells distinct. */
  lemma AddSampleKeepsDistinct(samples: seq<Sample>, s: Sample)
    requires SampleIdsDistinct(samples) && CellsDistinct(samples)
    ensures SampleIdsDistinct(samples + [s]) && CellsDistinct(samples + [s]) <==>
      !IdTaken(samples, s.id) && !CellTaken(samples, s.rackId, s.row, s.col)
  {
    var after := samples + [s];
    assert forall j :: 0 <= j < |samples| ==> after[j] == samples[j];
    if !IdTaken(samples, s.id) && !CellTaken(samples, s.rackId, s.row, s.col) {
      assert forall j :: 0 <= j < |samples| ==> samples[j].id != s.id && !Occupies(samples[j], s.rackId, s.row, s.col);
    } else if IdTaken(samples, s.id) {
      var j :| 0 <= j < |samples| && samples[j].id == s.id;
      assert after[j].id == after[|samples|].id;
    } else {
      var j :| 0 <= j < |samples| && Occupies(samples[j], s.rackId, s.row, s.col);
      assert SameCell(after[j], after[|samples|]);
    }
  }

  /**
   * The `forEach` at the start of `deleteSamples`: splits the samples, in order, into those
   * whose id is listed and the rest, without losing or duplicating any.
   */
  method SplitByIds(samples: seq<Sample>, ids: seq<Id>) returns (remaining: seq<Sample>, removed: seq<Sample>)
    ensures remaining == Filter(samples, NotListed(ids)) && removed == Filter(samples, Listed(ids))
    ensures multiset(removed) + multiset(remaining) == multiset(samples)
    ensures |removed| + |remaining| == |samples|
    ensures removed == [] ==> remaining == samples
  {
    remaining, removed := [], [];
    var i := 0;
    while i < |samples|
      invariant 0 <= i <= |samples|
      invariant remaining == Filter(samples[..i], NotListed(ids))
      invariant removed == Filter(samples[..i], Listed(ids))
    {
      assert samples[..i + 1][..i] == samples[..i];
      if samples[i].id in ids {
        removed := removed + [samples[i]];
      } else {
        remaining := remaining + [samples[i]];
      }
      i := i + 1;
    }
    assert samples[..i] == samples;
    FilterPartition(samples, Listed(ids), NotListed(ids));
    assert |multiset(removed)| + |multiset(remaining)| == |multiset(samples)|;
    if removed == [] {
      FilterMembers(samples, Listed(ids));
      FilterKeepsAll(samples, NotListed(ids));
    }
  }

  // ---- The store ----

  class Store {
    var racks: seq<Rack>
    var samples: seq<Sample>
    /** Newest record first. */
    var history: seq<Record>
    var isLoading: bool
    var isSaving: bool
    var saveQueued: bool
    /** The copy the save in progress is sending; None while no save runs. */
    var inFlight: Option<StoreData>
    /** The copy the server last accepted. */
    var persisted: StoreData
    /** How many ids `generateId` has handed out. */
    var nextId: nat

    /** A save runs exactly when a copy is in flight, and a save is only queued behind a running one. */
    ghost predicate Valid()
      reads this
    {
      (isSaving <==> inFlight.Some?) && (saveQueued ==> isSaving)
    }

    function Snapshot(): StoreData
      reads this
    {
      StoreData(racks, samples, history)
    }

    /**
     * The save flags after an operation whose state changes all came before its `logged`
     * `logHistory` calls: a running save only gets a save queued behind it; otherwise the
     * first call started a save copying the arrays as they were then (with only the first
     * new record), and any later call queued another.
     */
    predicate SavesRequested(wasSaving: bool, wasInFlight: Option<StoreData>, logged: nat)
      reads this
      requires 0 < logged <= |history|
    {
      isSaving &&
      if wasSaving then saveQueued && inFlight == wasInFlight
      else saveQueued == (logged > 1) && inFlight == Some(StoreData(racks, samples, history[logged - 1..]))
    }

    constructor()
      ensures Valid()
      ensures racks == [] && samples == [] && history == [] && nextId == 0
      ensures !isLoading && !isSaving && !saveQueued && persisted == StoreData([], [], [])
    {
      racks, samples, history := [], [], [];
      isLoading, isSaving, saveQueued := false, false, false;
      inFlight := None;
      persisted := StoreData([], [], []);
      nextId := 0;
    }

    /** `load`, up to the request: refused while a load is running. */
    method Load() returns (started: bool)
      modifies this`isLoading
      ensures started == !old(isLoading)
      ensures isLoading
    {
      if isLoading {
        return false;
      }
      isLoading := true;
      started := true;
    }

    /** The end of `load`: the arrays the server sent (absent ones empty), or all empty on an error. */
    method CompleteLoad(response: LoadResponse)
      requires isLoading
      modifies this`racks, this`samples, this`history, this`isLoading
      ensures !isLoading
      ensures response.Loaded? ==>
        racks == response.racks.GetOr([]) && samples == response.samples.GetOr([]) &&
        history == response.history.GetOr([])
      ensures response.LoadFailed? ==> racks == [] && samples == [] && history == []
    {
      isLoading := false;
      match response
      case Loaded(r, s, h) =>
        racks := r.GetOr([]);
        samples := s.GetOr([]);
        history := h.GetOr([]);
      case LoadFailed =>
        racks, samples, history := [], [], [];
    }

    /** `save`, up to the request: queued behind a running save, otherwise started on a copy of the arrays. */
    method Save()
      requires isSaving <==> inFlight.Some?
      modifies this`isSaving, this`saveQueued, this`inFlight
      ensures Valid() && isSaving
      ensures old(isSaving) ==> saveQueued && inFlight == old(inFlight)
      ensures !old(isSaving) ==> !saveQueued && inFlight == Some(Snapshot())
    {
      if isSaving {
        saveQueued := true;
        return;
      }
      isSaving := true;
      saveQueued := false;
      inFlight := Some(Snapshot());
    }

    /**
     * The end of the request a save made: on success the server holds the copy sent;
     * either way the flag drops, and a save queued meanwhile starts now on the arrays
     * as they are at this moment.
     */
    method CompleteSave(success: bool)
      requires Valid() && isSaving
      modifies this`isSaving, this`saveQueued, this`inFlight, this`persisted
      ensures Valid()
      ensures persisted == if success then old(inFlight).value else old(persisted)
      ensures isSaving == old(saveQueued) && !saveQueued
      ensures inFlight == if old(saveQueued) then Some(Snapshot()) else None
    {
      if success {
        persisted := inFlight.value;
      }
      isSaving := false;
      inFlight := None;
      if saveQueued {
        Save();
      }
    }

    /** `logHistory`: prepends one record with a fresh id and requests a save. */
    method LogHistory(action: Action, entityType: EntityType, entityId: Id, details: string,
                      previousState: Option<Entity>, currentState: Option<Entity>, now: Timestamp)
      requires Valid()
      modifies this`history, this`nextId, this`isSaving, this`saveQueued, this`inFlight
      ensures Valid()
      ensures history == [Record(FreshId(old(nextId)), now, action, entityType, entityId, details, previousState, currentState)] + old(history)
      ensures nextId == old(nextId) + 1
      ensures SavesRequested(old(isSaving), old(inFlight), 1)
    {
      var entry := Record(FreshId(nextId), now, action, entityType, entityId, details, previousState, currentState);
      nextId := nextId + 1;
      history := [entry] + history;
      Save();
    }

    /**
     * Where the `forEach` of `deleteRack` and of `deleteSamples` stands after logging the
     * first `logged` of `doomed`, having started with the counter at `n0`, the history
     * `h0` and the save flags `was*`.
     */
    ghost predicate DeletionsLogged(doomed: seq<Sample>, logged: nat, details: string, now: Timestamp, n0: nat,
                                    h0: seq<Record>, wasSaving: bool, wasQueued: bool, wasInFlight: Option<StoreData>)
      reads this
      requires logged <= |doomed|
    {
      Valid() &&
      history == DeletionRecords(doomed[..logged], n0, now, details) + h0 &&
      nextId == n0 + logged &&
      (logged == 0 ==> isSaving == wasSaving && saveQueued == wasQueued && inFlight == wasInFlight) &&
      (logged > 0 ==> SavesRequested(wasSaving, wasInFlight, logged))
    }

    /** One turn of that `forEach`: the next sample's DELETE record. */
    method LogNextDeletion(doomed: seq<Sample>, j: nat, details: string, now: Timestamp, ghost n0: nat,
                           ghost h0: seq<Record>, ghost wasSaving: bool, ghost wasQueued: bool, ghost wasInFlight: Option<StoreData>)
      requires j < |doomed|
      requires DeletionsLogged(doomed, j, details, now, n0, h0, wasSaving, wasQueued, wasInFlight)
      modifies this`history, this`nextId, this`isSaving, this`saveQueued, this`inFlight
      ensures DeletionsLogged(doomed, j + 1, details, now, n0, h0, wasSaving, wasQueued, wasInFlight)
    {
      ghost var before := history;
      LogHistory(Delete, SampleType, doomed[j].id, details, Some(SampleState(doomed[j])), None, now);
      ghost var rec := history[0];
      assert history == [rec] + before;
      assert rec == SampleDeleted(doomed[j], n0 + j, now, details);
      DeletionRecordsStep(doomed, j, n0, now, details, h0);
      if j > 0 {
        DropAfterPrepend(rec, before, j);
      }
    }

    /**
     * The `forEach` of `deleteRack` and of `deleteSamples`: one DELETE record per sample,
     * in order, so the last one ends up first.
     */
    method LogSampleDeletions(doomed: seq<Sample>, details: string, now: Timestamp)
      requires Valid()
      modifies this`history, this`nextId, this`isSaving, this`saveQueued, this`inFlight
      ensures Valid()
      ensures history == DeletionRecords(doomed, old(nextId), now, details) + old(history)
      ensures nextId == old(nextId) + |doomed|
      ensures doomed == [] ==> isSaving == old(isSaving) && saveQueued == old(saveQueued) && inFlight == old(inFlight)
      ensures doomed != [] ==> SavesRequested(old(isSaving), old(inFlight), |doomed|)
    {
      var j := 0;
      while j < |doomed|
        invariant j <= |doomed|
        invariant DeletionsLogged(doomed, j, details, now, old(nextId), old(history), old(isSaving), old(saveQueued), old(inFlight))
      {
        LogNextDeletion(doomed, j, details, now, old(nextId), old(history), old(isSaving), old(saveQueued), old(inFlight));
        j := j + 1;
      }
      assert doomed[..j] == doomed;
    }

    /** `addRack`: appends the rack with a fresh id and logs its CREATE record. */
    method AddRack(data: RackData, now: Timestamp) returns (rack: Rack)
      requires Valid()
      modifies this
      ensures Valid()
      ensures rack == Rack(FreshId(old(nextId)), data.name, data.rows, data.cols, now, now)
      ensures racks == old(racks) + [rack] && samples == old(samples)
      ensures history == [CreateRackRecord(rack, old(nextId) + 1, now)] + old(history)
      ensures nextId == old(nextId) + 2
      ensures SavesRequested(old(isSaving), old(inFlight), 1)
      ensures isLoading == old(isLoading) && persisted == old(persisted)
    {
      rack := Rack(FreshId(nextId), data.name, data.rows, data.cols, now, now);
      nextId := nextId + 1;
      racks := racks + [rack];
      LogHistory(Create, RackType, rack.id, "Rack created: " + rack.name, None, Some(RackState(rack)), now);
    }

    /** `updateRack`: merges the new fields over the rack in place and logs MODIFY with both states. */
    method UpdateRack(id: Id, data: RackData, now: Timestamp) returns (updated: Option<Rack>)
      requires Valid()
      modifies this
      ensures Valid()
      ensures RackIndex(old(racks), id) == -1 ==> updated == None && unchanged(this)
      ensures RackIndex(old(racks), id) >= 0 ==>
        var i := RackIndex(old(racks), id);
        var r := Merged(old(racks)[i], data, now);
        updated == Some(r) && racks == old(racks)[i := r] && samples == old(samples) &&
        history == [ModifyRackRecord(old(racks)[i], r, old(nextId), now)] + old(history) &&
        nextId == old(nextId) + 1 &&
        SavesRequested(old(isSaving), old(inFlight), 1) &&
        isLoading == old(isLoading) && persisted == old(persisted)
    {
      var i := RackIndex(racks, id);
      if i == -1 {
        return None;
      }
      var prior := racks[i];
      var r := Merged(prior, data, now);
      racks := racks[i := r];
      LogHistory(Modify, RackType, id, "Rack modified: " + r.name, Some(RackState(prior)), Some(RackState(r)), now);
      updated := Some(r);
    }

    /**
     * `deleteRack`: splices the rack out, drops every sample of it, logs one DELETE per
     * such sample and then the rack's DELETE, which so ends up first in the history.
     */
    method DeleteRack(id: Id, now: Timestamp) returns (deleted: Option<Rack>)
      requires Valid()
      modifies this
      ensures Valid()
      ensures RackIndex(old(racks), id) == -1 ==> deleted == None && unchanged(this)
      ensures RackIndex(old(racks), id) >= 0 ==>
        var i := RackIndex(old(racks), id);
        var rack := old(racks)[i];
        var doomed := FindSamplesByRack(old(samples), id);
        deleted == Some(rack) &&
        racks == RemoveAt(old(racks), i) &&
        samples == Filter(old(samples), NotInRack(id)) &&
        history == [DeleteRackRecord(rack, old(nextId) + |doomed|, now)] +
                   (DeletionRecords(doomed, old(nextId), now, CascadeDetails(rack)) + old(history)) &&
        nextId == old(nextId) + |doomed| + 1 &&
        SavesRequested(old(isSaving), old(inFlight), |doomed| + 1) &&
        isLoading == old(isLoading) && persisted == old(persisted)
      ensures RackIndex(old(racks), id) >= 0 ==> forall j :: 0 <= j < |samples| ==> samples[j].rackId != id
    {
      var i := RackIndex(racks, id);
      if i == -1 {
        return None;
      }
      var rack := racks[i];
      racks := RemoveAt(racks, i);
      var doomed := FindSamplesByRack(samples, id);
      samples := Filter(samples, NotInRack(id));
      assert rack.id == id;
      LogRackDeletion(rack, doomed, now);
      deleted := Some(rack);
    }

    /** The logging of `deleteRack`: the DELETE of each of its samples, then the rack's own. */
    method LogRackDeletion(rack: Rack, doomed: seq<Sample>, now: Timestamp)
      requires Valid()
      modifies this`history, this`nextId, this`isSaving, this`saveQueued, this`inFlight
      ensures Valid()
      ensures history == [DeleteRackRecord(rack, old(nextId) + |doomed|, now)] +
                         (DeletionRecords(doomed, old(nextId), now, CascadeDetails(rack)) + old(history))
      ensures nextId == old(nextId) + |doomed| + 1
      ensures SavesRequested(old(isSaving), old(inFlight), |doomed| + 1)
    {
      LogSampleDeletions(doomed, CascadeDetails(rack), now);
      ghost var before := history;
      LogHistory(Delete, RackType, rack.id, "Rack deleted: " + rack.name, Some(RackState(rack)), None, now);
      ghost var rec := history[0];
      assert history == [rec] + before;
      if doomed != [] {
        DropAfterPrepend(rec, before, |doomed|);
      }
    }

    /**
     * `deleteSamples`: keeps, in order, the samples whose id is not listed; when any were
     * removed, logs one DELETE per removed sample. Returns how many were removed.
     */
    method DeleteSamples(ids: seq<Id>, now: Timestamp) returns (count: nat)
      requires Valid()
      modifies this
      ensures Valid()
      ensures count == |Filter(old(samples), Listed(ids))|
      ensures count + |samples| == |old(samples)|
      ensures count == 0 ==> unchanged(this)
      ensures count > 0 ==>
        samples == Filter(old(samples), NotListed(ids)) && racks == old(racks) &&
        history == DeletionRecords(Filter(old(samples), Listed(ids)), old(nextId), now, ResizeDetails) + old(history) &&
        nextId == old(nextId) + count &&
        SavesRequested(old(isSaving), old(inFlight), count) &&
        isLoading == old(isLoading) && persisted == old(persisted)
    {
      var remaining, removed := SplitByIds(samples, ids);
      count := |removed|;
      if count > 0 {
        samples := remaining;
        LogSampleDeletions(removed, ResizeDetails, now);
      }
    }

    /**
     * `addSample`: refused, changing nothing, when the id is already used or the cell is
     * taken; otherwise appends the sample and logs its CREATE record. Neither the rack's
     * existence nor its bounds are checked.
     */
    method AddSample(data: SampleData, now: Timestamp) returns (added: Option<Sample>)
      requires Valid()
      modifies this
      ensures Valid()
      ensures added.None? <==> IdTaken(old(samples), data.id) || CellTaken(old(samples), data.rackId, data.row, data.col)
      ensures added.None? ==> unchanged(this)
      ensures added.Some? ==>
        var s := Sample(data.id, data.rackId, data.row, data.col, data.comment, now, now);
        added.value == s && samples == old(samples) + [s] && racks == old(racks) &&
        history == [CreateSampleRecord(racks, s, old(nextId), now)] + old(history) &&
        nextId == old(nextId) + 1 &&
        SavesRequested(old(isSaving), old(inFlight), 1) &&
        isLoading == old(isLoading) && persisted == old(persisted)
    {
      if SampleIndex(samples, data.id) >= 0 {
        return None;
      }
      if FindSampleByLocation(samples, data.rackId, data.row, data.col).Some? {
        return None;
      }
      var s := Sample(data.id, data.rackId, data.row, data.col, data.comment, now, now);
      samples := samples + [s];
      var rackName := RackNameOrNA(racks, s.rackId);
      LogHistory(Create, SampleType, s.id, "Sample added to Rack " + rackName + " at " + CellText(s.row, s.col),
                 None, Some(SampleState(s)), now);
      added := Some(s);
    }

    /** `deleteSample`: splices out the first sample with that id and logs its DELETE record. */
    method DeleteSample(id: Id, now: Timestamp) returns (deleted: Option<Sample>)
      requires Valid()
      modifies this
      ensures Valid()
      ensures !IdTaken(old(samples), id) ==> deleted == None && unchanged(this)
      ensures IdTaken(old(samples), id) ==>
        var i := SampleIndex(old(samples), id);
        var s := old(samples)[i];
        deleted == Some(s) && samples == RemoveAt(old(samples), i) && racks == old(racks) &&
        history == [DeleteSampleRecord(racks, s, old(nextId), now)] + old(history) &&
        nextId == old(nextId) + 1 &&
        SavesRequested(old(isSaving), old(inFlight), 1) &&
        isLoading == old(isLoading) && persisted == old(persisted)
      ensures SampleIdsDistinct(old(samples)) ==> !IdTaken(samples, id)
    {
      var i := SampleIndex(samples, id);
      if i == -1 {
        return None;
      }
      var s := samples[i];
      samples := RemoveAt(samples, i);
      var rackName := RackNameOrNA(racks, s.rackId);
      LogHistory(Delete, SampleType, id, "Sample removed from Rack " + rackName + " at " + CellText(s.row, s.col),
                 Some(SampleState(s)), None, now);
      deleted := Some(s);
      if SampleIdsDistinct(old(samples)) {
        forall j | 0 <= j < |samples| ensures samples[j].id != id {
          if j < i { assert samples[j] == old(samples)[j]; }
          else { assert samples[j] == old(samples)[j + 1]; }
        }
      }
    }

    /**
     * `restoreEntity`: re-checks the record against the present state; a refusal changes
     * nothing, a success puts the snapshot back and logs a RESTORE record whose
     * previousState is the record's currentState and whose currentState is the record's
     * previousState.
     */
    method RestoreEntity(entry: Record, now: Timestamp) returns (refusal: Option<RestoreError>)
      requires Valid()
      modifies this
      ensures Valid()
      ensures refusal == RestoreFailure(old(racks), old(samples), entry)
      ensures refusal.Some? ==> unchanged(this)
      ensures refusal.None? ==>
        (racks, samples) == ApplyRestore(old(racks), old(samples), entry) &&
        history == [RestoreRecord(entry, old(nextId), now)] + old(history) &&
        nextId == old(nextId) + 1 &&
        SavesRequested(old(isSaving), old(inFlight), 1) &&
        isLoading == old(isLoading) && persisted == old(persisted)
    {
      refusal := RestoreFailure(racks, samples, entry);
      if refusal.Some? {
        return;
      }
      match entry.previousState.value {
        case RackState(r) =>
          if entry.action == Delete {
            racks := racks + [r];
          } else {
            racks := racks[RackIndex(racks, entry.entityId) := r];
          }
        case SampleState(s) =>
          if entry.action == Delete {
            samples := samples + [s];
          } else {
            samples := samples[SampleIndex(samples, entry.entityId) := s];
          }
      }
      LogHistory(Restore, entry.entityType, entry.entityId, RestoreDescription(entry), entry.currentState, entry.previousState, now);
    }
  }
}
