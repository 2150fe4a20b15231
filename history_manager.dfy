/**
 * The history page of the tracker (test_tube_tracker/js/historyManager.js): which records
 * offer a Restore button, the text of the Details column, the field-by-field diff of a
 * MODIFY record, and the click on a Restore button.
 */
module HistoryManager {
  import opened Wrappers
  import opened Text
  import opened Arrays
  import opened DataStore

  // ---- Snapshots as JavaScript objects ----

  /** A property value of a snapshot: the stores only hold strings and integers. */
  datatype Value = Str(s: string) | Num(n: int)

  datatype Field = Field(key: string, value: Value)

  /** A rack's properties in creation order: the form's `{ name, rows, cols }`, then `id`, `createdAt`, `modifiedAt`. */
  function RackFields(r: Rack): seq<Field> {
    [Field("name", Str(r.name)), Field("rows", Num(r.rows)), Field("cols", Num(r.cols)),
     Field("id", Str(r.id)), Field("createdAt", Str(r.createdAt)), Field("modifiedAt", Str(r.modifiedAt))]
  }

  /** A sample's properties in creation order: the manager's `{ id, rackId, row, col, comment }`, then the two timestamps. */
  function SampleFields(s: Sample): seq<Field> {
    [Field("id", Str(s.id)), Field("rackId", Str(s.rackId)), Field("row", Num(s.row)), Field("col", Num(s.col)),
     Field("comment", Str(s.comment)), Field("createdAt", Str(s.createdAt)), Field("modifiedAt", Str(s.modifiedAt))]
  }

  function Fields(e: Entity): seq<Field> {
    match e
    case RackState(r) => RackFields(r)
    case SampleState(s) => SampleFields(s)
  }

  /** `obj[key]`: the value of the first property with that key, None for `undefined`. */
  function Lookup(fs: seq<Field>, key: string): Option<Value> {
    if fs == [] then None else if fs[0].key == key then Some(fs[0].value) else Lookup(fs[1..], key)
  }

  predicate KeysDistinct(fs: seq<Field>) {
    forall i, j :: 0 <= i < j < |fs| ==> fs[i].key != fs[j].key
  }

  /** With distinct keys, a property's key looks up its own value. */
  lemma {:induction false} LookupFinds(fs: seq<Field>, f: Field)
    requires KeysDistinct(fs) && f in fs
    ensures Lookup(fs, f.key) == Some(f.value)
  {
    if fs[0] != f {
      assert fs[1..] == fs[1..] && f in fs[1..];
      var j :| 0 <= j < |fs[1..]| && fs[1..][j] == f;
      assert fs[j + 1] == f;
      LookupFinds(fs[1..], f);
    }
  }

  lemma EntityKeysDistinct(e: Entity)
    ensures KeysDistinct(Fields(e))
  {
  }

  // ---- getChangesString ----

  /** The three properties the diff never reports. */
  predicate Skipped(key: string) {
    key == "createdAt" || key == "modifiedAt" || key == "id"
  }

  /** One entry of the `changes` array, before it is rendered. */
  datatype Change = Changed(key: string, before: Option<Value>, after: Value) | Removed(key: string, lost: Value)

  /** What the first loop pushes for one property of the current state. */
  function ChangeOf(prev: seq<Field>, f: Field): seq<Change> {
    if !Skipped(f.key) && Lookup(prev, f.key) != Some(f.value) then [Changed(f.key, Lookup(prev, f.key), f.value)] else []
  }

  /** What the second loop pushes for one property of the previous state. */
  function RemovalOf(curr: seq<Field>, f: Field): seq<Change> {
    if !Skipped(f.key) && Lookup(curr, f.key).None? then [Removed(f.key, f.value)] else []
  }

  /** The first loop over the current state's properties, in order. */
  function CurrChanges(prev: seq<Field>, curr: seq<Field>): seq<Change>
    decreases |curr|
  {
    if curr == [] then [] else CurrChanges(prev, curr[..|curr| - 1]) + ChangeOf(prev, curr[|curr| - 1])
  }

  /** The second loop over the previous state's properties, in order. */
  function PrevOnly(prev: seq<Field>, curr: seq<Field>): seq<Change>
    decreases |prev|
  {
    if prev == [] then [] else PrevOnly(prev[..|prev| - 1], curr) + RemovalOf(curr, prev[|prev| - 1])
  }

  /** The first loop after `n + 1` properties is the loop after `n` and one more step. */
  lemma CurrChangesSnoc(prev: seq<Field>, curr: seq<Field>, n: nat)
    requires n < |curr|
    ensures CurrChanges(prev, curr[..n + 1]) == CurrChanges(prev, curr[..n]) + ChangeOf(prev, curr[n])
  {
    assert curr[..n + 1][..n] == curr[..n];
  }

  lemma PrevOnlySnoc(prev: seq<Field>, curr: seq<Field>, n: nat)
    requires n < |prev|
    ensures PrevOnly(prev[..n + 1], curr) == PrevOnly(prev[..n], curr) + RemovalOf(curr, prev[n])
  {
    assert prev[..n + 1][..n] == prev[..n];
  }

  function ChangeList(prev: seq<Field>, curr: seq<Field>): seq<Change> {
    CurrChanges(prev, curr) + PrevOnly(prev, curr)
  }

  /** A property is reported when it is not skipped and either its value differs from the previous one or it is gone. */
  ghost predicate Reported(prev: seq<Field>, curr: seq<Field>, ch: Change) {
    !Skipped(ch.key) &&
    match ch
    case Changed(k, b, a) => Field(k, a) in curr && b == Lookup(prev, k) && b != Some(a)
    case Removed(k, v) => Field(k, v) in prev && Lookup(curr, k).None?
  }

  lemma {:induction false} CurrChangesIff(prev: seq<Field>, curr: seq<Field>)
    ensures forall ch :: ch in CurrChanges(prev, curr) <==> ch.Changed? && Reported(prev, curr, ch)
    decreases |curr|
  {
    if curr != [] {
      var init, last := curr[..|curr| - 1], curr[|curr| - 1];
      CurrChangesIff(prev, init);
      assert curr == init + [last];
    }
  }

  lemma {:induction false} PrevOnlyIff(prev: seq<Field>, curr: seq<Field>)
    ensures forall ch :: ch in PrevOnly(prev, curr) <==> ch.Removed? && Reported(prev, curr, ch)
    decreases |prev|
  {
    if prev != [] {
      var init, last := prev[..|prev| - 1], prev[|prev| - 1];
      PrevOnlyIff(init, curr);
      assert prev == init + [last];
    }
  }

  /**
   * The diff lists exactly the reportable changes: every property of the current state
   * whose value differs from the previous one, and every property only the previous
   * state has; `createdAt`, `modifiedAt` and `id` never appear.
   */
  lemma ChangeListIff(prev: seq<Field>, curr: seq<Field>)
    ensures forall ch :: ch in ChangeList(prev, curr) <==> Reported(prev, curr, ch)
    ensures forall ch :: ch in ChangeList(prev, curr) ==> !Skipped(ch.key)
  {
    CurrChangesIff(prev, curr);
    PrevOnlyIff(prev, curr);
  }

  /** Properties with distinct keys compared with themselves have nothing to report. */
  lemma NoChangesAgainstSelf(fs: seq<Field>)
    requires KeysDistinct(fs)
    ensures ChangeList(fs, fs) == []
  {
    ChangeListIff(fs, fs);
    if ChangeList(fs, fs) != [] {
      var ch := ChangeList(fs, fs)[0];
      assert Reported(fs, fs, ch);
      match ch
      case Changed(k, b, a) =>
        LookupFinds(fs, Field(k, a));
      case Removed(k, v) =>
        LookupFinds(fs, Field(k, v));
    }
  }

  /** A snapshot compared with itself has nothing to report. */
  lemma NoChangesAgainstItself(e: Entity)
    ensures ChangesString(Some(e), Some(e)) == NoChanges
  {
    EntityKeysDistinct(e);
    NoChangesAgainstSelf(Fields(e));
  }

  /** `'${value}'` in a template string: strings as they are, integers in decimal, a missing property as `undefined`. */
  function Display(v: Option<Value>): string {
    match v
    case None => "undefined"
    case Some(Str(s)) => s
    case Some(Num(n)) => IntToString(n)
  }

  function ChangeText(ch: Change): string {
    match ch
    case Changed(k, b, a) => k + ": '" + Display(b) + "' -> '" + Display(Some(a)) + "'"
    case Removed(k, v) => k + ": '" + Display(Some(v)) + "' -> (deleted)"
  }

  function Texts(cs: seq<Change>): seq<string> {
    seq(|cs|, j requires 0 <= j < |cs| => ChangeText(cs[j]))
  }

  lemma TextsAppend(a: seq<Change>, b: seq<Change>)
    ensures Texts(a + b) == Texts(a) + Texts(b)
  {
  }

  const NoChanges := "No significant changes detected."

  /** What `getChangesString` returns: `N/A` without both states, else the joined changes or the fallback text. */
  function ChangesString(prev: Option<Entity>, curr: Option<Entity>): string {
    if prev.None? || curr.None? then "N/A"
    else
      var joined := Join(Texts(ChangeList(Fields(prev.value), Fields(curr.value))), ", ");
      if joined == "" then NoChanges else joined
  }

  lemma {:induction false} JoinNonEmpty(parts: seq<string>, sep: string)
    requires parts != [] && parts[0] != ""
    ensures Join(parts, sep) != ""
  {
  }

  /**
   * The fallback text appears exactly when nothing is reportable; otherwise the result
   * is the rendered changes joined with `", "`.
   */
  lemma ChangesStringCases(prev: Entity, curr: Entity)
    ensures var cs := ChangeList(Fields(prev), Fields(curr));
      (cs == [] ==> ChangesString(Some(prev), Some(curr)) == NoChanges) &&
      (cs != [] ==> ChangesString(Some(prev), Some(curr)) == Join(Texts(cs), ", ") != "")
  {
    var cs := ChangeList(Fields(prev), Fields(curr));
    if cs != [] {
      assert Texts(cs)[0] == ChangeText(cs[0]);
      JoinNonEmpty(Texts(cs), ", ");
    }
  }

  /** Skipped properties at the end of the current state add nothing to the first loop. */
  lemma {:induction false} CurrChangesSkippedTail(prev: seq<Field>, curr: seq<Field>, n: nat)
    requires n <= |curr| && forall j :: n <= j < |curr| ==> Skipped(curr[j].key)
    ensures CurrChanges(prev, curr) == CurrChanges(prev, curr[..n])
    decreases |curr|
  {
    if n < |curr| {
      var init := curr[..|curr| - 1];
      CurrChangesSkippedTail(prev, init, n);
      assert init[..n] == curr[..n];
    } else {
      assert curr[..n] == curr;
    }
  }

  /** When only the first three properties can be reported, the first loop is their three steps. */
  lemma CurrChangesFirstThree(prev: seq<Field>, curr: seq<Field>)
    requires |curr| >= 3 && forall j :: 3 <= j < |curr| ==> Skipped(curr[j].key)
    ensures CurrChanges(prev, curr) == ChangeOf(prev, curr[0]) + ChangeOf(prev, curr[1]) + ChangeOf(prev, curr[2])
  {
    CurrChangesSkippedTail(prev, curr, 3);
    assert curr[..0] == [];
    CurrChangesSnoc(prev, curr, 0);
    CurrChangesSnoc(prev, curr, 1);
    CurrChangesSnoc(prev, curr, 2);
  }

  /** Every property of `prev` is still present, so the second loop pushes nothing. */
  lemma {:induction false} PrevOnlyAllKept(prev: seq<Field>, curr: seq<Field>)
    requires forall j :: 0 <= j < |prev| ==> Lookup(curr, prev[j].key).Some?
    ensures PrevOnly(prev, curr) == []
    decreases |prev|
  {
    if prev != [] {
      PrevOnlyAllKept(prev[..|prev| - 1], curr);
    }
  }

  /** Two racks have the same properties, so comparing them never reports one as deleted. */
  lemma RackKeysKept(before: Rack, after: Rack)
    ensures PrevOnly(RackFields(before), RackFields(after)) == []
  {
    var p, c := RackFields(before), RackFields(after);
    EntityKeysDistinct(RackState(after));
    forall j | 0 <= j < |p| ensures Lookup(c, p[j].key).Some? {
      LookupFinds(c, c[j]);
    }
    PrevOnlyAllKept(p, c);
  }

  /** Each of the form fields of a rack is reported exactly when its value differs. */
  lemma RackFormFieldChanges(before: Rack, after: Rack)
    ensures var p, c := RackFields(before), RackFields(after);
      ChangeOf(p, c[0]) == (if after.name != before.name then [Changed("name", Some(Str(before.name)), Str(after.name))] else []) &&
      ChangeOf(p, c[1]) == (if after.rows != before.rows then [Changed("rows", Some(Num(before.rows)), Num(after.rows))] else []) &&
      ChangeOf(p, c[2]) == (if after.cols != before.cols then [Changed("cols", Some(Num(before.cols)), Num(after.cols))] else [])
  {
    var p := RackFields(before);
    EntityKeysDistinct(RackState(before));
    LookupFinds(p, p[0]);
    LookupFinds(p, p[1]);
    LookupFinds(p, p[2]);
  }

  /** The diff of `updateRack`'s MODIFY record shows exactly the edited form fields, in form order. */
  lemma RackEditChanges(prior: Rack, data: RackData, now: Timestamp)
    ensures ChangeList(RackFields(prior), RackFields(Merged(prior, data, now))) ==
      (if data.name != prior.name then [Changed("name", Some(Str(prior.name)), Str(data.name))] else []) +
      (if data.rows != prior.rows then [Changed("rows", Some(Num(prior.rows)), Num(data.rows))] else []) +
      (if data.cols != prior.cols then [Changed("cols", Some(Num(prior.cols)), Num(data.cols))] else [])
  {
    var after := Merged(prior, data, now);
    RackKeysKept(prior, after);
    RackFormFieldChanges(prior, after);
    CurrChangesFirstThree(RackFields(prior), RackFields(after));
  }

  /** The two `for...in` loops of `getChangesString`, which push the rendered changes. */
  method CollectChanges(p: seq<Field>, c: seq<Field>) returns (changes: seq<string>)
    ensures changes == Texts(ChangeList(p, c))
  {
    changes := [];
    var i := 0;
    while i < |c|
      invariant 0 <= i <= |c|
      invariant changes == Texts(CurrChanges(p, c[..i]))
    {
      CurrChangesSnoc(p, c, i);
      TextsAppend(CurrChanges(p, c[..i]), ChangeOf(p, c[i]));
      var key := c[i].key;
      if !Skipped(key) && Lookup(p, key) != Some(c[i].value) {
        changes := changes + [ChangeText(Changed(key, Lookup(p, key), c[i].value))];
      }
      i := i + 1;
    }
    assert c[..|c|] == c;
    var k := 0;
    while k < |p|
      invariant 0 <= k <= |p|
      invariant changes == Texts(CurrChanges(p, c) + PrevOnly(p[..k], c))
    {
      PrevOnlySnoc(p, c, k);
      assert CurrChanges(p, c) + PrevOnly(p[..k + 1], c) == (CurrChanges(p, c) + PrevOnly(p[..k], c)) + RemovalOf(c, p[k]);
      TextsAppend(CurrChanges(p, c) + PrevOnly(p[..k], c), RemovalOf(c, p[k]));
      var key := p[k].key;
      if !Skipped(key) && Lookup(c, key).None? {
        changes := changes + [ChangeText(Removed(key, p[k].value))];
      }
      k := k + 1;
    }
    assert p[..|p|] == p;
  }

  /** `getChangesString`: `N/A` without both states; otherwise the joined changes, or the fallback text when there are none. */
  method GetChangesString(prev: Option<Entity>, curr: Option<Entity>) returns (r: string)
    ensures r == ChangesString(prev, curr)
  {
    if prev.None? || curr.None? {
      return "N/A";
    }
    var changes := CollectChanges(Fields(prev.value), Fields(curr.value));
    r := Join(changes, ", ");
    if r == "" {
      r := NoChanges;
    }
  }

  // ---- JSON.stringify of a snapshot ----

  function HexDigit(d: nat): char
    requires d < 16
  {
    if d < 10 then DigitChar(d) else ('a' as int + d - 10) as char
  }

  /** How `JSON.stringify` writes one character inside a string literal. */
  function JsonEscapeChar(c: char): string {
    if c == '"' then "\\\""
    else if c == '\\' then "\\\\"
    else if c as int == 0x08 then "\\b"
    else if c as int == 0x0C then "\\f"
    else if c == '\n' then "\\n"
    else if c == '\r' then "\\r"
    else if c == '\t' then "\\t"
    else if (c as int) < 0x20 then "\\u00" + [HexDigit(c as int / 16), HexDigit(c as int % 16)]
    else [c]
  }

  function JsonEscape(s: string): string {
    if s == [] then "" else JsonEscapeChar(s[0]) + JsonEscape(s[1..])
  }

  function JsonString(s: string): string {
    "\"" + JsonEscape(s) + "\""
  }

  function JsonValue(v: Value): string {
    match v
    case Str(s) => JsonString(s)
    case Num(n) => IntToString(n)
  }

  function JsonMembers(fs: seq<Field>): seq<string> {
    seq(|fs|, j requires 0 <= j < |fs| => JsonString(fs[j].key) + ":" + JsonValue(fs[j].value))
  }

  /** `JSON.stringify(state)`: `null` for a missing state, else the object's properties in order. */
  function JsonState(state: Option<Entity>): string {
    match state
    case None => "null"
    case Some(e) => "{" + Join(JsonMembers(Fields(e)), ",") + "}"
  }

  // ---- The history table ----

  /** `canRestore`: a DELETE or MODIFY record that holds a previous state. */
  predicate CanRestore(entry: Record) {
    (entry.action == Delete || entry.action == Modify) && entry.previousState.Some?
  }

  /**
   * A record without the Restore button is one the store would refuse whatever the racks
   * and samples; one with it is never refused for its action or a missing state.
   */
  lemma CanRestoreMatchesStore(racks: seq<Rack>, samples: seq<Sample>, entry: Record)
    ensures !CanRestore(entry) ==> RestoreFailure(racks, samples, entry).Some?
    ensures CanRestore(entry) && SnapshotMatches(entry.entityType, entry.previousState.value) ==>
      RestoreFailure(racks, samples, entry) != Some(MissingPreviousState) &&
      RestoreFailure(racks, samples, entry) != Some(Unsupported)
  {
  }

  /** `generateDetailsString`: the text of the Details column, by action. */
  function GenerateDetailsString(entry: Record): string {
    match entry.action
    case Create => "Data: " + JsonState(entry.currentState)
    case Delete => "Old Data: " + JsonState(entry.previousState)
    case Modify => "Changes: " + ChangesString(entry.previousState, entry.currentState)
    case Restore => "Restored from state: " + JsonState(entry.currentState) + " to " + JsonState(entry.previousState)
  }

  /**
   * For the RESTORE record the store logs after restoring `entry`, which swaps the two
   * states, the Details text names the snapshot that was put back first and the state it
   * replaced second.
   */
  lemma RestoreDetailsOrder(entry: Record, recId: Id, now: Timestamp)
    requires entry.previousState.Some?
    ensures var logged := Record(recId, now, Restore, entry.entityType, entry.entityId,
                                 RestoreDescription(entry), entry.currentState, entry.previousState);
      GenerateDetailsString(logged) ==
        "Restored from state: " + JsonState(entry.previousState) + " to " + JsonState(entry.currentState)
  {
  }

  /** The MODIFY record of a rack edit that changes none of the form's fields shows the fallback text. */
  lemma RackEditDetails(prior: Rack, data: RackData, now: Timestamp, recId: Id, details: string)
    requires data.name == prior.name && data.rows == prior.rows && data.cols == prior.cols
    ensures GenerateDetailsString(Record(recId, now, Modify, RackType, prior.id, details,
                                         Some(RackState(prior)), Some(RackState(Merged(prior, data, now))))) ==
      "Changes: " + NoChanges
  {
    RackEditChanges(prior, data, now);
    ChangesStringCases(RackState(prior), RackState(Merged(prior, data, now)));
  }

  // ---- Restore button ----

  function HasId(historyId: Id): Record -> bool {
    (h: Record) => h.id == historyId
  }

  /** How a click on a Restore button ends. */
  datatype RestoreClick = EntryNotFound | Declined | Attempted(refusal: Option<RestoreError>)

  /**
   * `handleRestoreClick`: the record is looked up by id in the present history; an unknown
   * id or a declined confirmation changes nothing, otherwise the store restores the record.
   */
  method HandleRestoreClick(store: Store, historyId: Id, confirmed: bool, now: Timestamp) returns (outcome: RestoreClick)
    requires store.Valid()
    modifies store
    ensures store.Valid()
    ensures outcome.EntryNotFound? <==> forall j :: 0 <= j < |old(store.history)| ==> old(store.history)[j].id != historyId
    ensures outcome.EntryNotFound? || outcome.Declined? ==> unchanged(store)
    ensures outcome.Declined? ==> !confirmed
    ensures outcome.Attempted? ==>
      var entry := old(store.history)[FindIndex(old(store.history), HasId(historyId))];
      confirmed && outcome.refusal == RestoreFailure(old(store.racks), old(store.samples), entry) &&
      (outcome.refusal.Some? ==> unchanged(store)) &&
      (outcome.refusal.None? ==>
        (store.racks, store.samples) == ApplyRestore(old(store.racks), old(store.samples), entry) &&
        store.history == [RestoreRecord(entry, old(store.nextId), now)] + old(store.history) &&
        store.nextId == old(store.nextId) + 1)
  {
    var entry := Find(store.history, HasId(historyId));
    if entry.None? {
      return EntryNotFound;
    }
    if !confirmed {
      return Declined;
    }
    var refusal := store.RestoreEntity(entry.value, now);
    outcome := Attempted(refusal);
  }
}
