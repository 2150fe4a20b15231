/**
 * The store of the single-page tracker (script.js): racks and samples in two arrays and
 * a newest-first text log. Sample positions count from 1; deleting a sample only flags
 * it (`isDeleted`), so it can be restored; rack names and sample ids are compared
 * without regard to case.
 */
module SoftDeleteStore {
  import opened Wrappers
  import opened Text
  import opened Arrays

  type Id = string
  type Timestamp = string

  datatype Rack = Rack(id: Id, name: string, rows: int, cols: int, createdAt: Timestamp, updatedAt: Timestamp)

  /** A tube at 1-based (row, col) of its rack; a deleted one stays in the array, flagged. */
  datatype Sample = Sample(id: Id, sampleUniqueId: string, comment: Option<string>, rackId: Id, row: int, col: int,
                           createdAt: Timestamp, updatedAt: Timestamp, isDeleted: bool, deletedAt: Option<Timestamp>)

  /** The `type` of a log entry: 'rack_create', 'rack_update', ... */
  datatype EntryType = RackCreate | RackUpdate | RackDelete | SampleCreate | SampleUpdate | SampleDelete | SampleRestore

  datatype LogEntry = LogEntry(id: Id, timestamp: Timestamp, entryType: EntryType, details: string, relatedId: Option<Id>)

  /** Why an action stopped, one per message it shows. */
  datatype Refusal =
    | InvalidDetails
    | NameTaken
    | RackNotFound
    | DimensionConflict
    | HasSamples
    | SampleNotFound
    | SampleIdTaken
    | OutOfBounds
    | CellOccupied
    | NotRestorable

  /** What an action did: its change, nothing (no edit, or the user declined), or a refusal. */
  datatype Outcome = Done | Unchanged | Refused(reason: Refusal)

  /** The id `generateId` hands out as its n-th call. */
  function FreshId(n: nat): Id {
    "id_" + NatToString(n)
  }

  lemma FreshIdInjective(a: nat, b: nat)
    requires FreshId(a) == FreshId(b)
    ensures a == b
  {
    assert FreshId(a)[3..] == NatToString(a);
    assert FreshId(b)[3..] == NatToString(b);
    NatToStringInjective(a, b);
  }

  /** `id` is one of the first `n` ids handed out. */
  predicate Issued(id: Id, n: nat) {
    exists k :: 0 <= k < n && id == FreshId(k)
  }

  lemma FreshIdNotIssued(n: nat)
    ensures !Issued(FreshId(n), n)
  {
    if k :| 0 <= k < n && FreshId(n) == FreshId(k) {
      FreshIdInjective(n, k);
    }
  }

  // ---- Lookups ----

  /** `racks.findIndex(r => r.id === id)`. */
  function RackIndex(racks: seq<Rack>, id: Id): (i: int)
    ensures -1 <= i < |racks|
    ensures 0 <= i ==> racks[i].id == id && forall j :: 0 <= j < i ==> racks[j].id != id
    ensures i == -1 <==> forall j :: 0 <= j < |racks| ==> racks[j].id != id
  {
    FindIndex(racks, (r: Rack) => r.id == id)
  }

  /** `racks.find(r => r.id === id)`. */
  function FindRack(racks: seq<Rack>, id: Id): (found: Option<Rack>)
    ensures found.Some? <==> exists j :: 0 <= j < |racks| && racks[j].id == id
    ensures found.Some? ==> found.value.id == id && found.value == racks[RackIndex(racks, id)]
  {
    var i := RackIndex(racks, id);
    if i < 0 then None else Some(racks[i])
  }

  /** `samples.findIndex(s => s.id === id)`. */
  function SampleIndex(samples: seq<Sample>, id: Id): (i: int)
    ensures -1 <= i < |samples|
    ensures 0 <= i ==> samples[i].id == id && forall j :: 0 <= j < i ==> samples[j].id != id
    ensures i == -1 <==> forall j :: 0 <= j < |samples| ==> samples[j].id != id
  {
    FindIndex(samples, (s: Sample) => s.id == id)
  }

  function OtherRack(rackId: Id): Rack -> bool {
    (r: Rack) => r.id != rackId
  }

  // ---- Validation predicates ----

  /** `isRackNameUnique`: no rack but the excluded one has the trimmed name, ignoring case; stored names are not trimmed. */
  predicate RackNameUnique(racks: seq<Rack>, name: string, exclude: Option<Id>) {
    forall j :: 0 <= j < |racks| ==> !(Lower(racks[j].name) == Lower(Trim(name)) && exclude != Some(racks[j].id))
  }

  /** `checkDimensionChangeImpact`: a live sample of the rack lies beyond the new size. */
  predicate DimensionChangeImpact(samples: seq<Sample>, rackId: Id, newRows: int, newCols: int) {
    exists j :: 0 <= j < |samples| && samples[j].rackId == rackId && !samples[j].isDeleted &&
                (samples[j].row > newRows || samples[j].col > newCols)
  }

  /** `rackHasSamples`: some sample, deleted or not, belongs to the rack. */
  predicate RackHasSamples(samples: seq<Sample>, rackId: Id) {
    exists j :: 0 <= j < |samples| && samples[j].rackId == rackId
  }

  /** `isSampleIdUnique`: no live sample but the excluded one has the trimmed id, ignoring case. */
  predicate SampleIdUnique(samples: seq<Sample>, uniqueId: string, exclude: Option<Id>) {
    forall j :: 0 <= j < |samples| ==>
      !(Lower(samples[j].sampleUniqueId) == Lower(Trim(uniqueId)) && !samples[j].isDeleted && exclude != Some(samples[j].id))
  }

  /**
   * `isLocationValid`: the rack exists and 1 <= row <= rows, 1 <= col <= cols. A number
   * field is None when `parseInt` gives NaN, which fails every comparison.
   */
  predicate LocationValid(rack: Option<Rack>, row: Option<int>, col: Option<int>) {
    rack.Some? && row.Some? && col.Some? &&
    1 <= row.value <= rack.value.rows && 1 <= col.value <= rack.value.cols
  }

  /** `isLocationOccupied`: a live sample other than the excluded one sits at that cell. */
  predicate LocationOccupied(samples: seq<Sample>, rackId: Id, row: int, col: int, exclude: Option<Id>) {
    exists j :: 0 <= j < |samples| && samples[j].rackId == rackId && samples[j].row == row &&
                samples[j].col == col && !samples[j].isDeleted && exclude != Some(samples[j].id)
  }

  // ---- What each action checks and builds ----

  /** The checks of `addRack`, in order; None when it adds. */
  function AddRackRefusal(racks: seq<Rack>, name: string, rows: Option<int>, cols: Option<int>): Option<Refusal> {
    if name == "" || rows.None? || cols.None? || rows.value < 1 || cols.value < 1 then Some(InvalidDetails)
    else if !RackNameUnique(racks, name, None) then Some(NameTaken)
    else None
  }

  /** The rack `addRack` stores: the trimmed name and the counter's next id. */
  function NewRack(n: nat, name: string, rows: int, cols: int, now: Timestamp): Rack {
    Rack(FreshId(n), Trim(name), rows, cols, now, now)
  }

  function RackCreated(r: Rack): string {
    "Rack \"" + r.name + "\" created (" + IntToString(r.rows) + "x" + IntToString(r.cols) + ")."
  }

  /** The checks of `updateRack`, in order; None when it goes on to compare. */
  function UpdateRackRefusal(racks: seq<Rack>, samples: seq<Sample>, rackId: Id, newName: string,
                             newRows: Option<int>, newCols: Option<int>): Option<Refusal> {
    var i := RackIndex(racks, rackId);
    if i == -1 then Some(RackNotFound)
    else if !RackNameUnique(racks, Trim(newName), Some(rackId)) then Some(NameTaken)
    else if Trim(newName) == "" || newRows.None? || newCols.None? || newRows.value < 1 || newCols.value < 1 then
      Some(InvalidDetails)
    else if (newRows.value < racks[i].rows || newCols.value < racks[i].cols) &&
            DimensionChangeImpact(samples, rackId, newRows.value, newCols.value) then
      Some(DimensionConflict)
    else None
  }

  /** The `changes` list of `updateRack`. */
  function RackChanges(prior: Rack, name: string, rows: int, cols: int): seq<string> {
    (if prior.name != name then ["name to \"" + name + "\""] else []) +
    (if prior.rows != rows || prior.cols != cols then ["dimensions to " + IntToString(rows) + "x" + IntToString(cols)] else [])
  }

  function Resized(prior: Rack, name: string, rows: int, cols: int, now: Timestamp): Rack {
    prior.(name := name, rows := rows, cols := cols, updatedAt := now)
  }

  /** `comment.trim() || null`. */
  function CommentValue(comment: string): Option<string> {
    if Trim(comment) == "" then None else Some(Trim(comment))
  }

  /** The checks of `addSample`, in order; None when it adds. */
  function AddSampleRefusal(racks: seq<Rack>, samples: seq<Sample>, rackId: Id, uniqueId: string,
                            row: Option<int>, col: Option<int>): Option<Refusal> {
    var rack := FindRack(racks, rackId);
    if rack.None? then Some(RackNotFound)
    else if !SampleIdUnique(samples, Trim(uniqueId), None) then Some(SampleIdTaken)
    else if !LocationValid(rack, row, col) then Some(OutOfBounds)
    else if LocationOccupied(samples, rackId, row.value, col.value, None) then Some(CellOccupied)
    else None
  }

  /** The live sample `addSample` appends. */
  function NewSample(n: nat, rackId: Id, uniqueId: string, comment: string, row: int, col: int, now: Timestamp): Sample {
    Sample(FreshId(n), Trim(uniqueId), CommentValue(comment), rackId, row, col, now, now, false, None)
  }

  function SampleAdded(rackName: string, s: Sample): string {
    "Sample \"" + s.sampleUniqueId + "\" added to " + rackName + " at R" + IntToString(s.row) + "C" + IntToString(s.col) + "."
  }

  /** The checks of `updateSample`, in order; None when it goes on to compare. */
  function UpdateSampleRefusal(samples: seq<Sample>, sampleId: Id, newUniqueId: string): Option<Refusal> {
    if SampleIndex(samples, sampleId) == -1 then Some(SampleNotFound)
    else if !SampleIdUnique(samples, Trim(newUniqueId), Some(sampleId)) then Some(SampleIdTaken)
    else None
  }

  /** The `changes` list of `updateSample`. */
  function SampleChanges(prior: Sample, uniqueId: string, comment: Option<string>): seq<string> {
    (if prior.sampleUniqueId != uniqueId then ["ID changed to \"" + uniqueId + "\""] else []) +
    (if prior.comment != comment then ["comment updated"] else [])
  }

  function Edited(prior: Sample, uniqueId: string, comment: Option<string>, now: Timestamp): Sample {
    prior.(sampleUniqueId := uniqueId, comment := comment, updatedAt := now)
  }

  /** `showSampleDetails` finds a live sample with that id and keeps it selected. */
  predicate ShowsDetails(samples: seq<Sample>, id: Id) {
    exists j :: 0 <= j < |samples| && samples[j].id == id && !samples[j].isDeleted
  }

  /** What `deleteSample` writes into the sample. */
  function SoftDeleted(s: Sample, now: Timestamp): Sample {
    s.(isDeleted := true, deletedAt := Some(now), updatedAt := now)
  }

  /** What `restoreSample` writes into the sample. */
  function Revived(s: Sample, now: Timestamp): Sample {
    s.(isDeleted := false, deletedAt := None, updatedAt := now)
  }

  /** `rack?.name || 'Unknown Rack'`. */
  function RackNameOrUnknown(racks: seq<Rack>, rackId: Id): string {
    match FindRack(racks, rackId)
    case Some(r) => if r.name == "" then "Unknown Rack" else r.name
    case None => "Unknown Rack"
  }

  /** The checks of `restoreSample`, in order; None when it restores. Bounds and id uniqueness are not among them. */
  function RestoreRefusal(racks: seq<Rack>, samples: seq<Sample>, sampleId: Id): Option<Refusal> {
    var i := SampleIndex(samples, sampleId);
    if i == -1 || !samples[i].isDeleted then Some(NotRestorable)
    else if FindRack(racks, samples[i].rackId).None? then Some(RackNotFound)
    else if LocationOccupied(samples, samples[i].rackId, samples[i].row, samples[i].col, None) then Some(CellOccupied)
    else None
  }

  function SampleRestored(rackName: string, s: Sample): string {
    "Sample \"" + s.sampleUniqueId + "\" restored to " + rackName + " at R" + IntToString(s.row) + "C" + IntToString(s.col) + "."
  }

  // ---- Invariants ----

  predicate IdsIssued(racks: seq<Rack>, samples: seq<Sample>, n: nat) {
    (forall j :: 0 <= j < |racks| ==> Issued(racks[j].id, n)) &&
    (forall j :: 0 <= j < |samples| ==> Issued(samples[j].id, n))
  }

  predicate RackIdsDistinct(racks: seq<Rack>) {
    forall j, k :: 0 <= j < k < |racks| ==> racks[j].id != racks[k].id
  }

  predicate SampleIdsDistinct(samples: seq<Sample>) {
    forall j, k :: 0 <= j < k < |samples| ==> samples[j].id != samples[k].id
  }

  /** No two racks have names equal up to case. */
  predicate NamesDistinct(racks: seq<Rack>) {
    forall j, k :: 0 <= j < k < |racks| ==> Lower(racks[j].name) != Lower(racks[k].name)
  }

  predicate SameCell(a: Sample, b: Sample) {
    a.rackId == b.rackId && a.row == b.row && a.col == b.col
  }

  /** No two live samples share a cell. */
  predicate LiveCellsDistinct(samples: seq<Sample>) {
    forall j, k :: 0 <= j < k < |samples| && !samples[j].isDeleted && !samples[k].isDeleted ==>
      !SameCell(samples[j], samples[k])
  }

  /** No two live samples have sample ids equal up to case. */
  predicate LiveIdsDistinct(samples: seq<Sample>) {
    forall j, k :: 0 <= j < k < |samples| && !samples[j].isDeleted && !samples[k].isDeleted ==>
      Lower(samples[j].sampleUniqueId) != Lower(samples[k].sampleUniqueId)
  }

  /** The sample lies inside a rack with its rack id. */
  predicate InBounds(racks: seq<Rack>, s: Sample) {
    exists k :: 0 <= k < |racks| && racks[k].id == s.rackId && 1 <= s.row <= racks[k].rows && 1 <= s.col <= racks[k].cols
  }

  predicate LiveInBounds(racks: seq<Rack>, samples: seq<Sample>) {
    forall j :: 0 <= j < |samples| && !samples[j].isDeleted ==> InBounds(racks, samples[j])
  }

  /** What every action keeps: issued, distinct ids, distinct rack names, one live sample per cell. */
  predicate Invariant(racks: seq<Rack>, samples: seq<Sample>, n: nat) {
    IdsIssued(racks, samples, n) && RackIdsDistinct(racks) && SampleIdsDistinct(samples) &&
    NamesDistinct(racks) && LiveCellsDistinct(samples)
  }

  /** What every action but `restoreSample` keeps: live sample ids distinct and live samples in bounds. */
  predicate Clean(racks: seq<Rack>, samples: seq<Sample>) {
    LiveIdsDistinct(samples) && LiveInBounds(racks, samples)
  }

  lemma IdsIssuedGrow(racks: seq<Rack>, samples: seq<Sample>, n: nat, m: nat)
    requires n <= m && IdsIssued(racks, samples, n)
    ensures IdsIssued(racks, samples, m)
  {
    forall j | 0 <= j < |racks| ensures Issued(racks[j].id, m) {
      assert Issued(racks[j].id, n);
      var k :| 0 <= k < n && racks[j].id == FreshId(k);
      assert 0 <= k < m;
    }
    forall j | 0 <= j < |samples| ensures Issued(samples[j].id, m) {
      assert Issued(samples[j].id, n);
      var k :| 0 <= k < n && samples[j].id == FreshId(k);
      assert 0 <= k < m;
    }
  }

  // ---- Building blocks of the invariant proofs ----

  /** Appending an item with the counter's next id keeps every id issued and distinct. */
  lemma AppendFreshRack(racks: seq<Rack>, samples: seq<Sample>, n: nat, r: Rack)
    requires IdsIssued(racks, samples, n) && RackIdsDistinct(racks) && r.id == FreshId(n)
    ensures IdsIssued(racks + [r], samples, n + 2) && RackIdsDistinct(racks + [r])
  {
    FreshIdNotIssued(n);
    IdsIssuedGrow(racks, samples, n, n + 2);
    assert Issued(r.id, n + 2);
    forall j | 0 <= j < |racks| ensures racks[j].id != r.id {
      assert Issued(racks[j].id, n);
    }
  }

  lemma AppendFreshSample(racks: seq<Rack>, samples: seq<Sample>, n: nat, s: Sample)
    requires IdsIssued(racks, samples, n) && SampleIdsDistinct(samples) && s.id == FreshId(n)
    ensures IdsIssued(racks, samples + [s], n + 2) && SampleIdsDistinct(samples + [s])
  {
    FreshIdNotIssued(n);
    IdsIssuedGrow(racks, samples, n, n + 2);
    assert Issued(s.id, n + 2);
    forall j | 0 <= j < |samples| ensures samples[j].id != s.id {
      assert Issued(samples[j].id, n);
    }
  }

  /** Replacing an item by one with the same id leaves the ids as they were. */
  lemma ReplaceRackKeepsIds(racks: seq<Rack>, samples: seq<Sample>, n: nat, i: nat, r: Rack)
    requires i < |racks| && r.id == racks[i].id
    requires IdsIssued(racks, samples, n) && RackIdsDistinct(racks)
    ensures IdsIssued(racks[i := r], samples, n + 1) && RackIdsDistinct(racks[i := r])
  {
    assert forall j :: 0 <= j < |racks| ==> racks[i := r][j].id == racks[j].id;
    IdsIssuedGrow(racks[i := r], samples, n, n + 1);
  }

  lemma ReplaceSampleKeepsIds(racks: seq<Rack>, samples: seq<Sample>, n: nat, i: nat, s: Sample)
    requires i < |samples| && s.id == samples[i].id
    requires IdsIssued(racks, samples, n) && SampleIdsDistinct(samples)
    ensures IdsIssued(racks, samples[i := s], n + 1) && SampleIdsDistinct(samples[i := s])
  {
    assert forall j :: 0 <= j < |samples| ==> samples[i := s][j].id == samples[j].id;
    IdsIssuedGrow(racks, samples[i := s], n, n + 1);
  }

  /** A rack whose name differs, up to case, from all the others keeps the names distinct. */
  lemma AppendKeepsNamesDistinct(racks: seq<Rack>, r: Rack)
    requires NamesDistinct(racks)
    requires forall j :: 0 <= j < |racks| ==> Lower(racks[j].name) != Lower(r.name)
    ensures NamesDistinct(racks + [r])
  {
  }

  lemma RenameKeepsNamesDistinct(racks: seq<Rack>, i: nat, r: Rack)
    requires i < |racks| && NamesDistinct(racks)
    requires forall j :: 0 <= j < |racks| && j != i ==> Lower(racks[j].name) != Lower(r.name)
    ensures NamesDistinct(racks[i := r])
  {
  }

  /** With distinct rack ids, the name check that excludes one rack compares against all the others. */
  lemma NameCheckCoversOthers(racks: seq<Rack>, name: string, i: nat)
    requires i < |racks| && RackIdsDistinct(racks)
    requires RackNameUnique(racks, name, Some(racks[i].id))
    ensures forall j :: 0 <= j < |racks| && j != i ==> Lower(racks[j].name) != Lower(Trim(name))
  {
    forall j | 0 <= j < |racks| && j != i ensures Lower(racks[j].name) != Lower(Trim(name)) {
      assert racks[j].id != racks[i].id;
    }
  }

  /** With distinct sample ids, the id check that excludes one sample compares against all the other live ones. */
  lemma IdCheckCoversOthers(samples: seq<Sample>, uniqueId: string, i: nat)
    requires i < |samples| && SampleIdsDistinct(samples)
    requires SampleIdUnique(samples, uniqueId, Some(samples[i].id))
    ensures forall j :: 0 <= j < |samples| && j != i && !samples[j].isDeleted ==>
      Lower(samples[j].sampleUniqueId) != Lower(Trim(uniqueId))
  {
    forall j | 0 <= j < |samples| && j != i && !samples[j].isDeleted
      ensures Lower(samples[j].sampleUniqueId) != Lower(Trim(uniqueId))
    {
      assert samples[j].id != samples[i].id;
    }
  }

  /** A live sample placed in a cell no live sample holds keeps one live sample per cell. */
  lemma AppendKeepsCellsDistinct(samples: seq<Sample>, s: Sample, rackId: Id, row: int, col: int)
    requires LiveCellsDistinct(samples) && !LocationOccupied(samples, rackId, row, col, None)
    requires s.rackId == rackId && s.row == row && s.col == col
    ensures LiveCellsDistinct(samples + [s])
  {
    var after := samples + [s];
    assert forall j :: 0 <= j < |samples| ==> after[j] == samples[j];
  }

  lemma ReviveKeepsCellsDistinct(samples: seq<Sample>, i: nat, s: Sample)
    requires i < |samples| && LiveCellsDistinct(samples) && SameCell(s, samples[i])
    requires samples[i].isDeleted && !LocationOccupied(samples, samples[i].rackId, samples[i].row, samples[i].col, None)
    ensures LiveCellsDistinct(samples[i := s])
  {
    var after := samples[i := s];
    forall j, k | 0 <= j < k < |after| && !after[j].isDeleted && !after[k].isDeleted
      ensures !SameCell(after[j], after[k])
    {
      if j != i && k != i {
        assert after[j] == samples[j] && after[k] == samples[k];
      }
    }
  }

  /** Rewriting a sample without moving it or bringing it back to life keeps one live sample per cell. */
  lemma ReplaceKeepsCellsDistinct(samples: seq<Sample>, i: nat, s: Sample)
    requires i < |samples| && LiveCellsDistinct(samples) && SameCell(s, samples[i])
    requires !s.isDeleted ==> !samples[i].isDeleted
    ensures LiveCellsDistinct(samples[i := s])
  {
    var after := samples[i := s];
    forall j, k | 0 <= j < k < |after| && !after[j].isDeleted && !after[k].isDeleted
      ensures !SameCell(after[j], after[k])
    {
      assert SameCell(after[j], samples[j]) && SameCell(after[k], samples[k]);
    }
  }

  /** A live sample whose id differs, up to case, from the other live ones keeps live ids distinct. */
  lemma ReplaceKeepsLiveIds(samples: seq<Sample>, i: nat, s: Sample)
    requires i < |samples| && LiveIdsDistinct(samples) && (!s.isDeleted ==> !samples[i].isDeleted)
    requires forall j :: 0 <= j < |samples| && j != i && !samples[j].isDeleted ==>
      Lower(samples[j].sampleUniqueId) != Lower(s.sampleUniqueId)
    ensures LiveIdsDistinct(samples[i := s])
  {
    var after := samples[i := s];
    forall j, k | 0 <= j < k < |after| && !after[j].isDeleted && !after[k].isDeleted
      ensures Lower(after[j].sampleUniqueId) != Lower(after[k].sampleUniqueId)
    {
      if j != i && k != i {
        assert after[j] == samples[j] && after[k] == samples[k];
      }
    }
  }

  /** Rewriting a sample without moving it or bringing it back to life keeps live samples in bounds. */
  lemma ReplaceKeepsInBounds(racks: seq<Rack>, samples: seq<Sample>, i: nat, s: Sample)
    requires i < |samples| && LiveInBounds(racks, samples) && SameCell(s, samples[i])
    requires !s.isDeleted ==> !samples[i].isDeleted
    ensures LiveInBounds(racks, samples[i := s])
  {
    var after := samples[i := s];
    forall j | 0 <= j < |after| && !after[j].isDeleted ensures InBounds(racks, after[j]) {
      assert InBounds(racks, samples[j]);
      assert SameCell(after[j], samples[j]);
    }
  }

  /**
   * Resizing a rack keeps live samples in bounds when it does not shrink, or when every
   * live sample of the rack fits the new size.
   */
  lemma ResizeKeepsInBounds(racks: seq<Rack>, samples: seq<Sample>, i: nat, r: Rack, rackId: Id, rows: int, cols: int)
    requires i < |racks| && racks[i].id == rackId && LiveInBounds(racks, samples)
    requires r.id == rackId && r.rows == rows && r.cols == cols
    requires (racks[i].rows <= rows && racks[i].cols <= cols) || !DimensionChangeImpact(samples, rackId, rows, cols)
    ensures LiveInBounds(racks[i := r], samples)
  {
    var after := racks[i := r];
    forall j | 0 <= j < |samples| && !samples[j].isDeleted ensures InBounds(after, samples[j]) {
      var s := samples[j];
      var k :| 0 <= k < |racks| && racks[k].id == s.rackId && 1 <= s.row <= racks[k].rows && 1 <= s.col <= racks[k].cols;
      assert after[k].id == s.rackId;
    }
  }

  // ---- Each action keeps the invariant ----

  /** `addRack` keeps the invariant: its name check compares exactly what it stores. */
  lemma AddRackKeepsInvariant(racks: seq<Rack>, samples: seq<Sample>, n: nat, name: string,
                              rows: Option<int>, cols: Option<int>, now: Timestamp)
    requires Invariant(racks, samples, n)
    requires AddRackRefusal(racks, name, rows, cols) == None
    ensures Invariant(racks + [NewRack(n, name, rows.value, cols.value, now)], samples, n + 2)
  {
    var r := NewRack(n, name, rows.value, cols.value, now);
    AppendFreshRack(racks, samples, n, r);
    assert forall j :: 0 <= j < |racks| ==> Lower(racks[j].name) != Lower(r.name);
    AppendKeepsNamesDistinct(racks, r);
  }

  /** `updateRack` keeps the invariant: the name check skips only the rack being edited. */
  lemma UpdateRackKeepsInvariant(racks: seq<Rack>, samples: seq<Sample>, n: nat, rackId: Id, newName: string,
                                 newRows: Option<int>, newCols: Option<int>, now: Timestamp)
    requires Invariant(racks, samples, n)
    requires UpdateRackRefusal(racks, samples, rackId, newName, newRows, newCols) == None
    ensures var i := RackIndex(racks, rackId);
      Invariant(racks[i := Resized(racks[i], Trim(newName), newRows.value, newCols.value, now)], samples, n + 1)
  {
    var i := RackIndex(racks, rackId);
    var r := Resized(racks[i], Trim(newName), newRows.value, newCols.value, now);
    TrimIdempotent(newName);
    NameCheckCoversOthers(racks, Trim(newName), i);
    RenameKeepsNamesDistinct(racks, i, r);
    ReplaceRackKeepsIds(racks, samples, n, i, r);
  }

  /** `deleteRack` keeps the invariant: it only drops racks. */
  lemma DeleteRackKeepsInvariant(racks: seq<Rack>, samples: seq<Sample>, n: nat, rackId: Id)
    requires Invariant(racks, samples, n)
    ensures Invariant(Filter(racks, OtherRack(rackId)), samples, n + 1)
  {
    var after := Filter(racks, OtherRack(rackId));
    FilterMembers(racks, OtherRack(rackId));
    FilterKeepsPairwise(racks, OtherRack(rackId), (a: Rack, b: Rack) => a.id != b.id);
    FilterKeepsPairwise(racks, OtherRack(rackId), (a: Rack, b: Rack) => Lower(a.name) != Lower(b.name));
    IdsIssuedGrow(racks, samples, n, n + 1);
    forall j | 0 <= j < |after| ensures Issued(after[j].id, n + 1) {
      var m :| 0 <= m < |racks| && racks[m] == after[j];
    }
  }

  /** When `addSample` goes ahead, its rack exists and both numbers parsed. */
  lemma AddSampleAccepted(racks: seq<Rack>, samples: seq<Sample>, rackId: Id, uniqueId: string, row: Option<int>, col: Option<int>)
    requires AddSampleRefusal(racks, samples, rackId, uniqueId, row, col) == None
    ensures FindRack(racks, rackId).Some? && row.Some? && col.Some?
  {
  }

  /** `addSample` keeps the invariant: the new sample has a fresh id and a free cell. */
  lemma AddSampleKeepsInvariant(racks: seq<Rack>, samples: seq<Sample>, n: nat, rackId: Id, uniqueId: string,
                                comment: string, row: Option<int>, col: Option<int>, now: Timestamp)
    requires Invariant(racks, samples, n)
    requires AddSampleRefusal(racks, samples, rackId, uniqueId, row, col) == None
    ensures Invariant(racks, samples + [NewSample(n, rackId, uniqueId, comment, row.value, col.value, now)], n + 2)
  {
    var s := NewSample(n, rackId, uniqueId, comment, row.value, col.value, now);
    AppendFreshSample(racks, samples, n, s);
    AppendKeepsCellsDistinct(samples, s, rackId, row.value, col.value);
  }

  /**
   * Rewriting one sample in place keeps the invariant when its id and cell stay and it
   * does not come back to life: `updateSample` and `deleteSample`.
   */
  lemma ReplaceKeepsInvariant(racks: seq<Rack>, samples: seq<Sample>, n: nat, i: nat, s: Sample)
    requires Invariant(racks, samples, n)
    requires i < |samples| && s.id == samples[i].id && SameCell(s, samples[i])
    requires !s.isDeleted ==> !samples[i].isDeleted
    ensures Invariant(racks, samples[i := s], n + 1)
  {
    ReplaceSampleKeepsIds(racks, samples, n, i, s);
    ReplaceKeepsCellsDistinct(samples, i, s);
  }

  /** `restoreSample` keeps the invariant: it brings a sample back only to a free cell. */
  lemma RestoreKeepsInvariant(racks: seq<Rack>, samples: seq<Sample>, n: nat, sampleId: Id, now: Timestamp)
    requires Invariant(racks, samples, n)
    requires RestoreRefusal(racks, samples, sampleId) == None
    ensures var i := SampleIndex(samples, sampleId);
      Invariant(racks, samples[i := Revived(samples[i], now)], n + 1)
  {
    var i := SampleIndex(samples, sampleId);
    var s := Revived(samples[i], now);
    ReplaceSampleKeepsIds(racks, samples, n, i, s);
    ReviveKeepsCellsDistinct(samples, i, s);
  }

  // ---- The actions that keep live ids distinct and live samples in bounds ----

  /** `updateRack` keeps every live sample in bounds: a shrink is refused while one lies beyond the new size. */
  lemma UpdateRackKeepsClean(racks: seq<Rack>, samples: seq<Sample>, rackId: Id, newName: string,
                             newRows: Option<int>, newCols: Option<int>, now: Timestamp)
    requires Clean(racks, samples)
    requires UpdateRackRefusal(racks, samples, rackId, newName, newRows, newCols) == None
    ensures var i := RackIndex(racks, rackId);
      Clean(racks[i := Resized(racks[i], Trim(newName), newRows.value, newCols.value, now)], samples)
  {
    var i := RackIndex(racks, rackId);
    var r := Resized(racks[i], Trim(newName), newRows.value, newCols.value, now);
    ResizeKeepsInBounds(racks, samples, i, r, rackId, newRows.value, newCols.value);
  }

  /** `deleteRack` keeps every live sample in bounds, because it refuses while any sample names the rack. */
  lemma DeleteRackKeepsClean(racks: seq<Rack>, samples: seq<Sample>, rackId: Id)
    requires Clean(racks, samples)
    requires !RackHasSamples(samples, rackId)
    ensures Clean(Filter(racks, OtherRack(rackId)), samples)
  {
    var after := Filter(racks, OtherRack(rackId));
    FilterMembers(racks, OtherRack(rackId));
    forall j | 0 <= j < |samples| && !samples[j].isDeleted ensures InBounds(after, samples[j]) {
      var s := samples[j];
      var k :| 0 <= k < |racks| && racks[k].id == s.rackId && 1 <= s.row <= racks[k].rows && 1 <= s.col <= racks[k].cols;
      assert racks[k] in after;
      var m :| 0 <= m < |after| && after[m] == racks[k];
    }
  }

  /** A live sample whose trimmed id no live sample uses keeps live ids distinct. */
  lemma AppendKeepsLiveIds(samples: seq<Sample>, s: Sample, uniqueId: string)
    requires LiveIdsDistinct(samples) && SampleIdUnique(samples, Trim(uniqueId), None)
    requires s.sampleUniqueId == Trim(uniqueId)
    ensures LiveIdsDistinct(samples + [s])
  {
    TrimIdempotent(uniqueId);
    var after := samples + [s];
    assert forall j :: 0 <= j < |samples| ==> after[j] == samples[j];
  }

  /** A live sample at a valid location of its rack keeps live samples in bounds. */
  lemma AppendKeepsInBounds(racks: seq<Rack>, samples: seq<Sample>, s: Sample, rackId: Id, row: Option<int>, col: Option<int>)
    requires LiveInBounds(racks, samples) && LocationValid(FindRack(racks, rackId), row, col)
    requires s.rackId == rackId && row == Some(s.row) && col == Some(s.col)
    ensures LiveInBounds(racks, samples + [s])
  {
    var after := samples + [s];
    assert InBounds(racks, s) by {
      assert racks[RackIndex(racks, rackId)].id == s.rackId;
    }
    assert forall j :: 0 <= j < |samples| ==> after[j] == samples[j];
  }

  /** `addSample` keeps live ids distinct and live samples in bounds: it checks both before appending. */
  lemma AddSampleKeepsClean(racks: seq<Rack>, samples: seq<Sample>, n: nat, rackId: Id, uniqueId: string,
                            comment: string, row: Option<int>, col: Option<int>, now: Timestamp)
    requires Clean(racks, samples)
    requires AddSampleRefusal(racks, samples, rackId, uniqueId, row, col) == None
    ensures Clean(racks, samples + [NewSample(n, rackId, uniqueId, comment, row.value, col.value, now)])
  {
    var s := NewSample(n, rackId, uniqueId, comment, row.value, col.value, now);
    AppendKeepsLiveIds(samples, s, uniqueId);
    AppendKeepsInBounds(racks, samples, s, rackId, row, col);
  }

  /** `updateSample` keeps live ids distinct: its id check skips only the sample being edited. */
  lemma UpdateSampleKeepsClean(racks: seq<Rack>, samples: seq<Sample>, sampleId: Id, newUniqueId: string,
                               newComment: string, now: Timestamp)
    requires Clean(racks, samples) && SampleIdsDistinct(samples)
    requires UpdateSampleRefusal(samples, sampleId, newUniqueId) == None
    ensures var i := SampleIndex(samples, sampleId);
      Clean(racks, samples[i := Edited(samples[i], Trim(newUniqueId), CommentValue(newComment), now)])
  {
    var i := SampleIndex(samples, sampleId);
    var s := Edited(samples[i], Trim(newUniqueId), CommentValue(newComment), now);
    TrimIdempotent(newUniqueId);
    IdCheckCoversOthers(samples, Trim(newUniqueId), i);
    ReplaceKeepsLiveIds(samples, i, s);
    ReplaceKeepsInBounds(racks, samples, i, s);
  }

  /** `deleteSample` only takes a sample out of the live ones. */
  lemma SoftDeleteKeepsClean(racks: seq<Rack>, samples: seq<Sample>, i: nat, now: Timestamp)
    requires Clean(racks, samples) && i < |samples|
    ensures Clean(racks, samples[i := SoftDeleted(samples[i], now)])
  {
    var after := samples[i := SoftDeleted(samples[i], now)];
    assert forall j :: 0 <= j < |after| && !after[j].isDeleted ==> after[j] == samples[j];
  }

  /**
   * `restoreSample` re-checks neither the sample id nor the bounds: a live sample may
   * since have taken the same id, ignoring case...
   */
  lemma RestoreSkipsIdCheck()
    ensures var racks := [Rack("r", "A", 1, 2, "t", "t")];
      var samples := [Sample("a", "X1", None, "r", 1, 1, "t", "t", true, Some("t")),
                      Sample("b", "x1", None, "r", 1, 2, "t", "t", false, None)];
      Clean(racks, samples) && RestoreRefusal(racks, samples, "a") == None &&
      !LiveIdsDistinct(samples[0 := Revived(samples[0], "u")])
  {
    var racks := [Rack("r", "A", 1, 2, "t", "t")];
    var samples := [Sample("a", "X1", None, "r", 1, 1, "t", "t", true, Some("t")),
                    Sample("b", "x1", None, "r", 1, 2, "t", "t", false, None)];
    assert racks[0].id == samples[1].rackId;
    assert InBounds(racks, samples[1]);
    assert SampleIndex(samples, "a") == 0;
    assert FindRack(racks, "r").Some?;
    var after := samples[0 := Revived(samples[0], "u")];
    assert Lower("X1") == "x1" == Lower("x1") by {
      assert Lower("X1") == [LowerChar('X')] + Lower("1");
      assert Lower("x1") == [LowerChar('x')] + Lower("1");
    }
    assert !after[0].isDeleted && !after[1].isDeleted;
    assert after[0].sampleUniqueId == "X1" && after[1].sampleUniqueId == "x1";
  }

  /** ...and a rack may have shrunk past the deleted sample, since the shrink check looks at live samples only. */
  lemma RestoreSkipsBoundsCheck()
    ensures var racks := [Rack("r", "A", 2, 2, "t", "t")];
      var samples := [Sample("a", "X1", None, "r", 2, 2, "t", "t", true, Some("t"))];
      var shrunk := racks[0 := Resized(racks[0], "A", 1, 1, "u")];
      UpdateRackRefusal(racks, samples, "r", "A", Some(1), Some(1)) == None &&
      Clean(shrunk, samples) && RestoreRefusal(shrunk, samples, "a") == None &&
      !LiveInBounds(shrunk, samples[0 := Revived(samples[0], "v")])
  {
    var racks := [Rack("r", "A", 2, 2, "t", "t")];
    var samples := [Sample("a", "X1", None, "r", 2, 2, "t", "t", true, Some("t"))];
    var shrunk := racks[0 := Resized(racks[0], "A", 1, 1, "u")];
    assert Trim("A") == "A" by {
      assert !IsSpace('A');
      assert TrimStart("A") == "A";
    }
    assert RackIndex(racks, "r") == 0;
    assert RackNameUnique(racks, "A", Some("r"));
    assert !DimensionChangeImpact(samples, "r", 1, 1);
    assert SampleIndex(samples, "a") == 0;
    assert FindRack(shrunk, "r").Some?;
    var after := samples[0 := Revived(samples[0], "v")];
    assert !after[0].isDeleted && after[0].row == 2;
    assert !InBounds(shrunk, after[0]);
  }

  /** Restoring right after a soft delete succeeds and gives the sample back, only `updatedAt` renewed. */
  lemma DeleteRestoreRoundTrip(racks: seq<Rack>, samples: seq<Sample>, sampleId: Id, t1: Timestamp, t2: Timestamp)
    requires LiveCellsDistinct(samples)
    requires SampleIndex(samples, sampleId) >= 0
    requires var s := samples[SampleIndex(samples, sampleId)];
      !s.isDeleted && s.deletedAt == None && FindRack(racks, s.rackId).Some?
    ensures var i := SampleIndex(samples, sampleId);
      var deleted := samples[i := SoftDeleted(samples[i], t1)];
      RestoreRefusal(racks, deleted, sampleId) == None &&
      deleted[i := Revived(deleted[i], t2)] == samples[i := samples[i].(updatedAt := t2)]
  {
    var i := SampleIndex(samples, sampleId);
    var deleted := samples[i := SoftDeleted(samples[i], t1)];
    assert SampleIndex(deleted, sampleId) == i by {
      assert forall j :: 0 <= j < |deleted| ==> deleted[j].id == samples[j].id;
    }
    forall j | 0 <= j < |deleted| && !deleted[j].isDeleted ensures !SameCell(deleted[j], samples[i]) {
      assert j != i && deleted[j] == samples[j];
    }
  }

  // ---- The tracker's state and actions ----

  class Tracker {
    var racks: seq<Rack>
    var samples: seq<Sample>
    /** Newest entry first. */
    var historyLog: seq<LogEntry>
    var selectedRackId: Option<Id>
    var selectedSampleId: Option<Id>
    /** How many ids `generateId` has handed out. */
    var nextId: nat

    ghost predicate Valid()
      reads this
    {
      Invariant(racks, samples, nextId)
    }

    constructor()
      ensures Valid()
      ensures racks == [] && samples == [] && historyLog == [] && nextId == 0
      ensures selectedRackId == None && selectedSampleId == None
    {
      racks, samples, historyLog := [], [], [];
      selectedRackId, selectedSampleId := None, None;
      nextId := 0;
    }

    /** `logHistory`: prepends one entry with a fresh id. */
    method LogHistory(entryType: EntryType, details: string, relatedId: Option<Id>, now: Timestamp)
      modifies this`historyLog, this`nextId
      ensures historyLog == [LogEntry(FreshId(old(nextId)), now, entryType, details, relatedId)] + old(historyLog)
      ensures nextId == old(nextId) + 1
    {
      historyLog := [LogEntry(FreshId(nextId), now, entryType, details, relatedId)] + historyLog;
      nextId := nextId + 1;
    }

    /** `addRack`: refused on an empty name, a size below 1 or a name in use; otherwise appends and logs. */
    method AddRack(name: string, rows: Option<int>, cols: Option<int>, now: Timestamp) returns (outcome: Outcome)
      requires Valid()
      modifies this`racks, this`historyLog, this`nextId
      ensures Valid()
      ensures var refusal := AddRackRefusal(old(racks), name, rows, cols);
        if refusal.Some? then outcome == Refused(refusal.value) && unchanged(this)
        else
          var r := NewRack(old(nextId), name, rows.value, cols.value, now);
          outcome == Done && racks == old(racks) + [r] &&
          historyLog == [LogEntry(FreshId(old(nextId) + 1), now, RackCreate, RackCreated(r), Some(r.id))] + old(historyLog) &&
          nextId == old(nextId) + 2
    {
      var refusal := AddRackRefusal(racks, name, rows, cols);
      if refusal.Some? {
        return Refused(refusal.value);
      }
      AddRackKeepsInvariant(racks, samples, nextId, name, rows, cols, now);
      var r := NewRack(nextId, name, rows.value, cols.value, now);
      nextId := nextId + 1;
      racks := racks + [r];
      LogHistory(RackCreate, RackCreated(r), Some(r.id), now);
      outcome := Done;
    }

    /**
     * `updateRack`: refused on an unknown rack, a name in use by another rack, an empty
     * name or size below 1, or a shrink past a live sample; logs nothing when neither the
     * name nor the size changes.
     */
    method UpdateRack(rackId: Id, newName: string, newRows: Option<int>, newCols: Option<int>, now: Timestamp)
      returns (outcome: Outcome)
      requires Valid()
      modifies this`racks, this`historyLog, this`nextId
      ensures Valid()
      ensures var refusal := UpdateRackRefusal(old(racks), samples, rackId, newName, newRows, newCols);
        if refusal.Some? then outcome == Refused(refusal.value) && unchanged(this)
        else
          var i := RackIndex(old(racks), rackId);
          var prior := old(racks)[i];
          var changes := RackChanges(prior, Trim(newName), newRows.value, newCols.value);
          if changes == [] then outcome == Unchanged && unchanged(this)
          else
            outcome == Done && racks == old(racks)[i := Resized(prior, Trim(newName), newRows.value, newCols.value, now)] &&
            historyLog == [LogEntry(FreshId(old(nextId)), now, RackUpdate,
                                    "Rack \"" + prior.name + "\" updated: " + Join(changes, ", ") + ".", Some(rackId))] + old(historyLog) &&
            nextId == old(nextId) + 1
    {
      var refusal := UpdateRackRefusal(racks, samples, rackId, newName, newRows, newCols);
      if refusal.Some? {
        return Refused(refusal.value);
      }
      var i := RackIndex(racks, rackId);
      var prior := racks[i];
      var name := Trim(newName);
      var changes := RackChanges(prior, name, newRows.value, newCols.value);
      if changes == [] {
        return Unchanged;
      }
      UpdateRackKeepsInvariant(racks, samples, nextId, rackId, newName, newRows, newCols, now);
      racks := racks[i := Resized(prior, name, newRows.value, newCols.value, now)];
      LogHistory(RackUpdate, "Rack \"" + prior.name + "\" updated: " + Join(changes, ", ") + ".", Some(rackId), now);
      outcome := Done;
    }

    /**
     * `deleteRack`: refused while any sample, deleted or not, names the rack; otherwise,
     * once confirmed, drops every rack with that id, logs, and deselects it.
     */
    method DeleteRack(rackId: Id, rackName: string, confirmed: bool, now: Timestamp) returns (outcome: Outcome)
      requires Valid()
      modifies this`racks, this`historyLog, this`nextId, this`selectedRackId
      ensures Valid()
      ensures RackHasSamples(samples, rackId) ==> outcome == Refused(HasSamples) && unchanged(this)
      ensures !RackHasSamples(samples, rackId) && !confirmed ==> outcome == Unchanged && unchanged(this)
      ensures !RackHasSamples(samples, rackId) && confirmed ==>
        outcome == Done && racks == Filter(old(racks), OtherRack(rackId)) &&
        historyLog == [LogEntry(FreshId(old(nextId)), now, RackDelete, "Rack \"" + rackName + "\" deleted.", Some(rackId))] +
                      old(historyLog) &&
        nextId == old(nextId) + 1 &&
        selectedRackId == if old(selectedRackId) == Some(rackId) then None else old(selectedRackId)
    {
      if RackHasSamples(samples, rackId) {
        return Refused(HasSamples);
      }
      if !confirmed {
        return Unchanged;
      }
      DeleteRackKeepsInvariant(racks, samples, nextId, rackId);
      racks := Filter(racks, OtherRack(rackId));
      LogHistory(RackDelete, "Rack \"" + rackName + "\" deleted.", Some(rackId), now);
      if selectedRackId == Some(rackId) {
        selectedRackId := None;
      }
      outcome := Done;
    }

    /**
     * `addSample`: refused on a missing rack, a sample id a live sample uses, a cell
     * outside the rack or a cell a live sample holds; otherwise appends a live sample.
     */
    method AddSample(rackId: Id, uniqueId: string, comment: string, row: Option<int>, col: Option<int>, now: Timestamp)
      returns (outcome: Outcome)
      requires Valid()
      modifies this`samples, this`historyLog, this`nextId
      ensures Valid()
      ensures var refusal := AddSampleRefusal(racks, old(samples), rackId, uniqueId, row, col);
        if refusal.Some? then outcome == Refused(refusal.value) && unchanged(this)
        else
          var s := NewSample(old(nextId), rackId, uniqueId, comment, row.value, col.value, now);
          outcome == Done && samples == old(samples) + [s] &&
          historyLog == [LogEntry(FreshId(old(nextId) + 1), now, SampleCreate, SampleAdded(FindRack(racks, rackId).value.name, s),
                                  Some(s.id))] + old(historyLog) &&
          nextId == old(nextId) + 2
    {
      var refusal := AddSampleRefusal(racks, samples, rackId, uniqueId, row, col);
      if refusal.Some? {
        return Refused(refusal.value);
      }
      AddSampleAccepted(racks, samples, rackId, uniqueId, row, col);
      AddSampleKeepsInvariant(racks, samples, nextId, rackId, uniqueId, comment, row, col, now);
      var rackName := FindRack(racks, rackId).value.name;
      var s := NewSample(nextId, rackId, uniqueId, comment, row.value, col.value, now);
      nextId := nextId + 1;
      samples := samples + [s];
      LogHistory(SampleCreate, SampleAdded(rackName, s), Some(s.id), now);
      outcome := Done;
    }

    /**
     * `updateSample`: refused on an unknown sample or an id another live sample uses;
     * logs nothing when neither the id nor the comment changes. Deleted samples can be edited.
     */
    method UpdateSample(sampleId: Id, newUniqueId: string, newComment: string, now: Timestamp) returns (outcome: Outcome)
      requires Valid()
      modifies this`samples, this`historyLog, this`nextId, this`selectedSampleId
      ensures Valid()
      ensures var refusal := UpdateSampleRefusal(old(samples), sampleId, newUniqueId);
        if refusal.Some? then outcome == Refused(refusal.value) && unchanged(this)
        else
          var i := SampleIndex(old(samples), sampleId);
          var prior := old(samples)[i];
          var changes := SampleChanges(prior, Trim(newUniqueId), CommentValue(newComment));
          if changes == [] then outcome == Unchanged && unchanged(this)
          else
            outcome == Done && samples == old(samples)[i := Edited(prior, Trim(newUniqueId), CommentValue(newComment), now)] &&
            historyLog == [LogEntry(FreshId(old(nextId)), now, SampleUpdate,
                                    "Sample \"" + prior.sampleUniqueId + "\" updated: " + Join(changes, ", ") + ".",
                                    Some(sampleId))] + old(historyLog) &&
            nextId == old(nextId) + 1 &&
            selectedSampleId == if ShowsDetails(samples, sampleId) then Some(sampleId) else None
    {
      var refusal := UpdateSampleRefusal(samples, sampleId, newUniqueId);
      if refusal.Some? {
        return Refused(refusal.value);
      }
      var i := SampleIndex(samples, sampleId);
      var prior := samples[i];
      var uid, comment := Trim(newUniqueId), CommentValue(newComment);
      var changes := SampleChanges(prior, uid, comment);
      if changes == [] {
        return Unchanged;
      }
      ReplaceKeepsInvariant(racks, samples, nextId, i, Edited(prior, uid, comment, now));
      samples := samples[i := Edited(prior, uid, comment, now)];
      LogHistory(SampleUpdate, "Sample \"" + prior.sampleUniqueId + "\" updated: " + Join(changes, ", ") + ".", Some(sampleId), now);
      selectedSampleId := if ShowsDetails(samples, sampleId) then Some(sampleId) else None;
      outcome := Done;
    }

    /** `deleteSample`: flags a live sample deleted, stamps it, logs and clears the selection; otherwise a no-op. */
    method DeleteSample(sampleId: Id, now: Timestamp) returns (outcome: Outcome)
      requires Valid()
      modifies this`samples, this`historyLog, this`nextId, this`selectedSampleId
      ensures Valid()
      ensures var i := SampleIndex(old(samples), sampleId);
        if i == -1 || old(samples)[i].isDeleted then outcome == Unchanged && unchanged(this)
        else
          var s := old(samples)[i];
          outcome == Done && samples == old(samples)[i := SoftDeleted(s, now)] &&
          historyLog == [LogEntry(FreshId(old(nextId)), now, SampleDelete,
                                  "Sample \"" + s.sampleUniqueId + "\" deleted from " + RackNameOrUnknown(racks, s.rackId) + ".",
                                  Some(sampleId))] + old(historyLog) &&
          nextId == old(nextId) + 1 && selectedSampleId == None
    {
      var i := SampleIndex(samples, sampleId);
      if i == -1 || samples[i].isDeleted {
        return Unchanged;
      }
      var s := samples[i];
      ReplaceKeepsInvariant(racks, samples, nextId, i, SoftDeleted(s, now));
      samples := samples[i := SoftDeleted(s, now)];
      LogHistory(SampleDelete, "Sample \"" + s.sampleUniqueId + "\" deleted from " + RackNameOrUnknown(racks, s.rackId) + ".",
                 Some(sampleId), now);
      selectedSampleId := None;
      outcome := Done;
    }

    /**
     * `restoreSample`: refused when the sample is missing or live, its rack is gone, or a
     * live sample holds its cell; otherwise clears the flag and logs.
     */
    method RestoreSample(sampleId: Id, now: Timestamp) returns (outcome: Outcome)
      requires Valid()
      modifies this`samples, this`historyLog, this`nextId
      ensures Valid()
      ensures var refusal := RestoreRefusal(racks, old(samples), sampleId);
        if refusal.Some? then outcome == Refused(refusal.value) && unchanged(this)
        else
          var i := SampleIndex(old(samples), sampleId);
          var s := old(samples)[i];
          outcome == Done && samples == old(samples)[i := Revived(s, now)] &&
          historyLog == [LogEntry(FreshId(old(nextId)), now, SampleRestore, SampleRestored(FindRack(racks, s.rackId).value.name, s),
                                  Some(sampleId))] + old(historyLog) &&
          nextId == old(nextId) + 1
    {
      var refusal := RestoreRefusal(racks, samples, sampleId);
      if refusal.Some? {
        return Refused(refusal.value);
      }
      RestoreKeepsInvariant(racks, samples, nextId, sampleId, now);
      var i := SampleIndex(samples, sampleId);
      var s := samples[i];
      samples := samples[i := Revived(s, now)];
      LogHistory(SampleRestore, SampleRestored(FindRack(racks, s.rackId).value.name, s), Some(sampleId), now);
      outcome := Done;
    }
  }
}
