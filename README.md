# Tube-rack tracker, modelled in Dafny

The repository is a laboratory sample tracker written in browser JavaScript. It stores
racks (grids of rows and columns), the samples placed in their cells, and a history of
changes from which a deleted or modified rack or sample can be restored.

This project models the data-handling core of the two pages the repository ships. The
markup-building, DOM and network code is not part of it. Each core source file is one
Dafny module:

- `DataStore` (`data_store.dfy`) models `test_tube_tracker/js/dataStore.js`, the store of the
  multi-page tracker. It is a class `Store` with the racks, samples and history arrays,
  the id counter, and the `isLoading`/`isSaving`/`saveQueued` flags.
  - Deletes splice entries out. Deleting a rack cascades to its samples.
  - Every change prepends a record holding before and after snapshots.
  - `restoreEntity` re-validates a DELETE or MODIFY record against the present state. If
    it accepts, it puts the snapshot back and logs a RESTORE record with the two states
    swapped.
  - Saving is the two-flag machine of `save`: never two saves at once, and a queued save
    copies the arrays as they are when it starts.
- `SoftDeleteStore` (`soft_delete_store.dfy`) models the single-page tracker `script.js`.
  It is a class `Tracker` over 1-based positions, with soft-deleted samples and a text log.
  - Of the six validation predicates, the uniqueness checks `isRackNameUnique` and
    `isSampleIdUnique` compare names and ids without regard to case (`script.js` lines
    131 and 134); the other four compare exactly.
  - The actions are `addRack`, `updateRack`, `deleteRack`, `addSample`, `updateSample`,
    `deleteSample` and `restoreSample`. Each one's checks, in the order the code makes
    them, are a `*Refusal` function.
  - The store invariant is proved preserved by every action. The two checks that
    `restoreSample` omits are exhibited by concrete states.
- `Html` (`html.dfy`) models `escapeHtml` of `script.js`. Its five chained replacements are
  shown equal to per-character escaping, well-formed, and undone by entity decoding.
- `SampleGrid` (`sample_grid.dfy`) models `getColLabel` and the `data-location` string of
  `test_tube_tracker/js/sampleGrid.js`.
  - Column labels form a bijection between indices and non-empty A..Z strings, and they
    are ordered A, ..., Z, AA, ...
  - Location strings are injective.
- `Placement` (`placement.dfy`) models the store-facing part of both `sampleManager.js`
  files, which is the same code in both: `findNextAvailableCell`, and the cell choice and
  calls of `handleAddSampleRequest` and `handleRemoveSampleRequest`.
- `TrackerSampleManager` and `OrganizerSampleManager` model the page state of the two
  sample managers: the current rack and the selected cell. The tracker's manager adds
  search and `switchRack`. The organizer's rack button switches on any id that differs
  from the current one, even an empty one.
- `RackManager` (`rack_manager.dfy`) models `handleFormSubmit` and `handleDeleteClick` of
  `test_tube_tracker/js/rackManager.js`.
  - `handleFormSubmit` validates the form and looks up the rack being edited. On a shrink
    it deletes the samples outside the new size, after confirmation. It then updates or
    creates the rack.
  - `handleDeleteClick` deletes a confirmed rack and resets the sample page if the page
    was showing it.
- `HistoryManager` (`history_manager.dfy`) models `test_tube_tracker/js/historyManager.js`:
  `canRestore`, `generateDetailsString`, `getChangesString` and `handleRestoreClick`.
  `getChangesString` is the two `for...in` loops over snapshot properties.
- `Text`, `Arrays` and `Wrappers` are the JavaScript built-ins the code relies on. `Text`
  has `trim`, `toLowerCase`, `includes` and integers in template strings. `Arrays` has
  `findIndex`, `find`, `filter`, `splice` and `slice`.

Inputs the code reads from its environment are parameters of the operations:

- the timestamp (`now`);
- the user's answer to a `confirm` dialog (`confirmed`);
- `parseInt` of a form field, as an `Option<int>` that is `None` for NaN;
- the outcome of a `fetch` (`LoadResponse`, `success`).

Ids from `generateId` come from a counter, modelled by `FreshId`.

The RESTORE record that `restoreEntity` logs stores the restored record's `currentState`
as its own `previousState`, and the record's `previousState` as its own `currentState`
(`test_tube_tracker/js/dataStore.js` line 286). The History page reads the two states of a
RESTORE record the same way round (`test_tube_tracker/js/historyManager.js` line 48);
`RestoreDetailsOrder` states what it then shows.

Restoring a deleted sample appends it at the end of the array (`dataStore.js` line 272).
A delete followed by its restore therefore gives back the same samples as a multiset, not
necessarily the same array, and that is what `DeleteSampleRestoreRoundTrip` proves.

## Model

| member | source | states |
|---|---|---|
| Arrays.FindIndex | test_tube_tracker/js/dataStore.js:123-126 | the first index whose element satisfies the predicate, or -1 exactly when none does |
| Arrays.Find | test_tube_tracker/js/dataStore.js:123-126 | `find` returns an element exactly when one satisfies the predicate, and it is the one at `findIndex` |
| Arrays.FilterMembers | test_tube_tracker/js/dataStore.js:125 | `filter` keeps exactly the satisfying elements: every result comes from the input and no satisfying element is dropped |
| Arrays.FilterPartition | test_tube_tracker/js/dataStore.js:185-194 | filtering by a predicate and by its negation splits the multiset of elements without loss or duplication |
| Arrays.RemoveAt | test_tube_tracker/js/dataStore.js:158 | `splice(i, 1)` shortens by one and shifts the elements after `i` down by one |
| Arrays.RemoveAtMultiset | test_tube_tracker/js/dataStore.js:230 | splicing out one element loses exactly that element |
| Text.TrimShape | script.js:131 | `trim` gives an infix of the input with only white space before and after it, that neither starts nor ends with white space, and that is empty exactly when the input is all white space |
| Text.TrimIdempotent | script.js:134 | trimming an already trimmed string changes nothing |
| Text.IncludesLower | test_tube_tracker/js/sampleManager.js:96-103 | a substring stays a substring after both strings are lowered |
| Text.IncludesIffOccurs | test_tube_tracker/js/sampleManager.js:101 | `includes` holds exactly when the needle occurs at some offset |
| Text.NatToStringInjective | script.js:97 | distinct counter values give distinct decimal strings, so generated ids differ |
| Html.EscapeHtmlPerChar | script.js:99-106 | the five chained `replace` calls, `&` first, equal escaping each character on its own |
| Html.EscapeHtmlWellEscaped | script.js:99-106 | the escaped text has no raw `<`, `>`, `"` or `'`, and every `&` in it starts one of the five entities |
| Html.EscapeHtmlRoundTrip | script.js:99-106 | decoding the five entities gives back the original text, so nothing is double-escaped |
| SampleGrid.GetColLabel | test_tube_tracker/js/sampleGrid.js:23-32 | the do-while loop computes the bijective base-26 label of the column |
| SampleGrid.LabelExamples | test_tube_tracker/js/sampleGrid.js:23-32 | columns 0, 25, 26, 27, 701 and 702 are labelled A, Z, AA, AB, ZZ and AAA |
| SampleGrid.LabelIndexOfColLabel | test_tube_tracker/js/sampleGrid.js:23-32 | reading the label back as a base-26 numeral gives the column index |
| SampleGrid.ColLabelOfLabelIndex | test_tube_tracker/js/sampleGrid.js:23-32 | every non-empty A..Z string is the label of the column it denotes |
| SampleGrid.ColLabelInjective | test_tube_tracker/js/sampleGrid.js:23-32 | distinct columns get distinct labels |
| SampleGrid.ColLabelOrdered | test_tube_tracker/js/sampleGrid.js:23-32 | a smaller column index gets a label earlier in the A, ..., Z, AA, AB, ... order |
| SampleGrid.LocationStringInjective | test_tube_tracker/js/sampleGrid.js:105-106 | distinct cells get distinct location strings |
| DataStore.FindRackById | test_tube_tracker/js/dataStore.js:123 | finds a rack exactly when one has that id, and it is the first such rack |
| DataStore.FindSampleById | test_tube_tracker/js/dataStore.js:124 | finds a sample exactly when one has that id, and it is the first such sample |
| DataStore.FindSampleByLocation | test_tube_tracker/js/dataStore.js:126 | finds a sample exactly when one of the rack sits in that cell |
| DataStore.FindSamplesByRack | test_tube_tracker/js/dataStore.js:125 | the result holds the store's samples of that rack, and all of them |
| DataStore.RackNameOrNA | test_tube_tracker/js/dataStore.js:219 | is never empty, and is the rack's name whenever the rack exists with a non-empty name |
| DataStore.Merged | test_tube_tracker/js/dataStore.js:145 | the spread keeps the rack's id and creation time and takes the new name, rows, cols and modification time |
| DataStore.DeletionRecordsAt | test_tube_tracker/js/dataStore.js:163-165 | the k-th newest record of a cascade is the DELETE of the k-th sample from the end, with the id the counter gave it |
| DataStore.RestoreRefusals | test_tube_tracker/js/dataStore.js:240-290 | a record without a previous state, and any CREATE or RESTORE record, is refused whatever the state; an accepted DELETE or MODIFY finds its entity absent or present as needed |
| DataStore.SampleRestoreAllowedIff | test_tube_tracker/js/dataStore.js:264-275 | a sample's DELETE record is restored exactly when its id is free, its rack exists, the cell is inside the rack's present size and the cell is free |
| DataStore.ApplyRestorePutsBack | test_tube_tracker/js/dataStore.js:250-284 | an accepted restore puts the snapshot into its array, appended for a DELETE and in place for a MODIFY, and leaves the other array alone |
| DataStore.DeleteSampleRestoreRoundTrip | test_tube_tracker/js/dataStore.js:227-286 | restoring the DELETE record of a sample of a consistent store is accepted and brings back the same multiset of samples |
| DataStore.DeleteRackRestoreRoundTrip | test_tube_tracker/js/dataStore.js:154-178 | restoring a rack's DELETE record is accepted, brings back the same multiset of racks and leaves the samples alone |
| DataStore.UpdateRackRestoreRoundTrip | test_tube_tracker/js/dataStore.js:142-152 | restoring the MODIFY record of `updateRack` is accepted and gives back exactly the racks before the update |
| DataStore.DeleteRackKeepsSamplesPlaced | test_tube_tracker/js/dataStore.js:154-178 | after the cascade every remaining sample still lies inside an existing rack |
| DataStore.FindRackSkipsRemoved | test_tube_tracker/js/dataStore.js:158 | splicing out another rack does not change which rack an id finds |
| DataStore.RestoreSampleKeepsConsistent | test_tube_tracker/js/dataStore.js:264-275 | an accepted sample restore keeps ids distinct, one sample per cell and every sample inside its rack |
| DataStore.AddSampleKeepsDistinct | test_tube_tracker/js/dataStore.js:205-213 | the two guards of `addSample` are exactly what keeps sample ids and occupied cells distinct |
| DataStore.SplitByIds | test_tube_tracker/js/dataStore.js:185-194 | the `forEach` splits the samples, in order, into the listed and the rest, as a partition of the multiset |
| DataStore.Store.constructor | test_tube_tracker/js/dataStore.js:3-8 | empty arrays, a zero counter, and no load or save running |
| DataStore.Store.Load | test_tube_tracker/js/dataStore.js:20-25 | a load already running refuses to start another |
| DataStore.Store.CompleteLoad | test_tube_tracker/js/dataStore.js:33-46 | the arrays the server sent, absent ones empty, or all three empty on an error; the load flag drops |
| DataStore.Store.Save | test_tube_tracker/js/dataStore.js:52-63 | a running save only gets a save queued behind it; otherwise a save starts on a copy of the arrays |
| DataStore.Store.CompleteSave | test_tube_tracker/js/dataStore.js:86-97 | on success the server holds the copy sent; the flag drops, and a queued save starts on the arrays as they are now |
| DataStore.Store.LogHistory | test_tube_tracker/js/dataStore.js:100-117 | prepends one record with a fresh id and both snapshots, and requests a save |
| DataStore.Store.LogSampleDeletions | test_tube_tracker/js/dataStore.js:163-165 | one DELETE record per sample, so the last one ends up first, and one save request per record |
| DataStore.Store.LogRackDeletion | test_tube_tracker/js/dataStore.js:163-167 | the DELETE records of the rack's samples, then the rack's own DELETE record on top, and one save request per record |
| DataStore.Store.AddRack | test_tube_tracker/js/dataStore.js:129-140 | appends the rack with a fresh id and both timestamps `now`, and logs its CREATE record |
| DataStore.Store.UpdateRack | test_tube_tracker/js/dataStore.js:142-152 | an unknown id changes nothing; otherwise the merged rack replaces it in place and a MODIFY record holds both states |
| DataStore.Store.DeleteRack | test_tube_tracker/js/dataStore.js:154-178 | an unknown id changes nothing; otherwise the rack and all its samples go, with one DELETE record per sample and the rack's record on top |
| DataStore.Store.DeleteSamples | test_tube_tracker/js/dataStore.js:180-202 | removes exactly the listed samples, keeps the rest in order, logs one DELETE record each and returns how many went |
| DataStore.Store.AddSample | test_tube_tracker/js/dataStore.js:205-225 | refused exactly when the id is in use or the cell is taken; otherwise appends the sample and logs its CREATE record |
| DataStore.Store.DeleteSample | test_tube_tracker/js/dataStore.js:227-237 | an unknown id changes nothing; otherwise splices out the first sample with that id and logs its DELETE record |
| DataStore.Store.RestoreEntity | test_tube_tracker/js/dataStore.js:240-296 | a refusal changes nothing; a success applies the snapshot and logs a RESTORE record whose previous state is the record's current state and vice versa |
| SoftDeleteStore.FreshIdInjective | script.js:97 | distinct counter values give distinct ids |
| SoftDeleteStore.FreshIdNotIssued | script.js:97 | the next id was never handed out before |
| SoftDeleteStore.AddRackKeepsInvariant | script.js:271-283 | when `addRack` accepts, the store keeps issued and distinct ids, case-distinct names and one live sample per cell |
| SoftDeleteStore.UpdateRackKeepsInvariant | script.js:285-313 | when `updateRack` accepts, the renamed and resized rack keeps the invariant |
| SoftDeleteStore.DeleteRackKeepsInvariant | script.js:315-324 | dropping every rack with the id keeps the invariant |
| SoftDeleteStore.AddSampleKeepsInvariant | script.js:334-353 | when `addSample` accepts, the new live sample keeps ids distinct and cells distinct |
| SoftDeleteStore.RestoreKeepsInvariant | script.js:432-453 | when `restoreSample` accepts, reviving the sample keeps one live sample per cell |
| SoftDeleteStore.UpdateRackKeepsClean | script.js:131-132 | a rename or resize that passes the checks keeps live ids case-distinct and every live sample inside its rack |
| SoftDeleteStore.DeleteRackKeepsClean | script.js:133 | a rack with no samples at all can go without leaving a live sample outside any rack |
| SoftDeleteStore.AddSampleKeepsClean | script.js:134-136 | a sample that passes the id, bounds and occupancy checks keeps live ids distinct and live samples in bounds |
| SoftDeleteStore.UpdateSampleKeepsClean | script.js:356-395 | an id edit that passes the uniqueness check keeps live ids distinct and samples in bounds |
| SoftDeleteStore.SoftDeleteKeepsClean | script.js:414-430 | flagging a sample deleted keeps live ids distinct and live samples in bounds |
| SoftDeleteStore.RestoreSkipsIdCheck | script.js:432-453 | a concrete store where restoring a sample revives an id that a live sample has since taken, ignoring case |
| SoftDeleteStore.RestoreSkipsBoundsCheck | script.js:432-453 | a concrete store where a rack shrinks past a deleted sample, which `restoreSample` then revives outside the rack |
| SoftDeleteStore.DeleteRestoreRoundTrip | script.js:414-453 | restoring right after a soft delete is accepted and gives the sample back with only `updatedAt` renewed |
| SoftDeleteStore.Tracker.constructor | script.js:89-94 | empty racks, samples and log, a zero counter, nothing selected |
| SoftDeleteStore.Tracker.LogHistory | script.js:116-128 | prepends one entry with a fresh id |
| SoftDeleteStore.Tracker.AddRack | script.js:271-283 | refused on an empty name, a size below 1 or a name in use, ignoring case; otherwise appends the trimmed rack and logs; keeps the invariant |
| SoftDeleteStore.Tracker.UpdateRack | script.js:285-313 | refused in the code's order; no change logs nothing; otherwise the rack is replaced in place and the changes are logged |
| SoftDeleteStore.Tracker.DeleteRack | script.js:315-324 | refused while any sample names the rack; declined changes nothing; otherwise the rack goes, is logged and deselected |
| SoftDeleteStore.Tracker.AddSample | script.js:334-353 | refused on a missing rack, an id in use, a cell outside the rack or an occupied cell; otherwise appends a live sample and logs |
| SoftDeleteStore.Tracker.UpdateSample | script.js:356-395 | refused on an unknown sample or an id in use; no change logs nothing; otherwise edits in place, logs and re-selects a live sample |
| SoftDeleteStore.Tracker.DeleteSample | script.js:414-430 | a missing or already deleted sample is left alone; otherwise it is flagged, stamped and logged, and the selection is cleared |
| SoftDeleteStore.Tracker.RestoreSample | script.js:432-453 | refused when the sample is missing or live, its rack is gone or its cell is taken; otherwise revived and logged |
| Placement.OccupiedCellsIff | test_tube_tracker/js/sampleManager.js:268-269 | a `row-col` key is in the set exactly when a sample of the rack sits in that cell |
| Placement.FirstFreeUnique | test_tube_tracker/js/sampleManager.js:270 | there is only one first free cell in row-major order |
| Placement.FindFree | test_tube_tracker/js/sampleManager.js:270-271 | the nested loops return the first free cell in row-major order, or nothing exactly when the grid is full |
| Placement.FindNextAvailableCell | test_tube_tracker/js/sampleManager.js:264-273 | nothing without a selected, existing rack; otherwise the first free cell of its grid, nothing exactly when the grid is full |
| Placement.PlacedByUnique | test_tube_tracker/js/sampleManager.js:217-231 | the placement rule leaves exactly one outcome for given inputs |
| Placement.PlacedCellIsFree | test_tube_tracker/js/sampleManager.js:220-226 | the chosen cell never holds a sample of the current rack, so the store's cell check always passes |
| Placement.ChooseCell | test_tube_tracker/js/sampleManager.js:217-231 | keeps a free target cell, otherwise the first free cell of the rack, and reports a missing rack or a full grid |
| Placement.AddSampleRequest | test_tube_tracker/js/sampleManager.js:215-241 | the sample goes into the chosen cell, and the store refuses only an id already in use; on success the racks are unchanged and exactly the sample's CREATE record is prepended to the history |
| Placement.RemoveSampleRequest | test_tube_tracker/js/sampleManager.js:243-261 | an empty id or a declined confirmation changes nothing; otherwise the sample with that id is spliced out, the racks are unchanged, exactly its DELETE record is prepended to the history, and whether it was selected is decided by row and column before the delete |
| TrackerSampleManager.SearchSound | test_tube_tracker/js/sampleManager.js:95-105 | at most 15 results, each a sample of the store whose id or non-empty comment contains the query, ignoring case |
| TrackerSampleManager.SearchComplete | test_tube_tracker/js/sampleManager.js:95-105 | with at most 15 matches, every matching sample is shown |
| TrackerSampleManager.SearchCapped | test_tube_tracker/js/sampleManager.js:105 | with more than 15 matches, exactly 15 are shown |
| TrackerSampleManager.SearchIgnoresCase | test_tube_tracker/js/sampleManager.js:96-103 | a sample whose id contains the query as typed is found whatever the case of either |
| TrackerSampleManager.SampleManager.constructor | test_tube_tracker/js/sampleManager.js:26-50 | after `init` no rack is shown and no cell selected |
| TrackerSampleManager.SampleManager.ResetPage | test_tube_tracker/js/sampleManager.js:301-309 | no rack shown, nothing selected |
| TrackerSampleManager.SampleManager.SwitchRack | test_tube_tracker/js/sampleManager.js:276-287 | an empty id changes nothing; otherwise the rack and the selected cell are set together |
| TrackerSampleManager.SampleManager.HandleRackButtonClick | test_tube_tracker/js/sampleManager.js:71-78 | a click on another, non-empty rack id switches to it with nothing selected; otherwise nothing changes |
| TrackerSampleManager.SampleManager.HandleSearchResultClick | test_tube_tracker/js/sampleManager.js:153-187 | a result whose row or column does not parse, or whose rack id is empty, is ignored; otherwise that rack is shown with that cell selected |
| TrackerSampleManager.SampleManager.HandleCellSelected | test_tube_tracker/js/sampleManager.js:204-212 | the clicked cell becomes the selection |
| TrackerSampleManager.SampleManager.HandleAddSampleRequest | test_tube_tracker/js/sampleManager.js:215-241 | the placement rule, the store's id refusal, and on success the racks unchanged, the sample's CREATE record logged and the new sample's cell selected |
| TrackerSampleManager.SampleManager.HandleRemoveSampleRequest | test_tube_tracker/js/sampleManager.js:243-261 | the guard, the store's removal with the racks unchanged and the sample's DELETE record logged, and the selection cleared only when it pointed at the removed sample's row and column |
| OrganizerSampleManager.SampleManager.constructor | tube_organizer/js/sampleManager.js:18-33 | after `init` no rack is shown and no cell selected |
| OrganizerSampleManager.SampleManager.ResetPage | tube_organizer/js/sampleManager.js:240-247 | no rack shown, nothing selected |
| OrganizerSampleManager.SampleManager.HandleRackButtonClick | tube_organizer/js/sampleManager.js:72-81 | any id other than the current one, even an empty one, becomes current, and the selection is cleared |
| OrganizerSampleManager.SampleManager.HandleCellSelected | tube_organizer/js/sampleManager.js:84-97 | the clicked cell becomes the selection |
| OrganizerSampleManager.SampleManager.HandleAddSampleRequest | tube_organizer/js/sampleManager.js:100-161 | the placement rule, the store's id refusal, and on success the racks unchanged, the sample's CREATE record logged and the new sample's cell selected |
| OrganizerSampleManager.SampleManager.HandleRemoveSampleRequest | tube_organizer/js/sampleManager.js:164-197 | the guard, the store's removal with the racks unchanged and the sample's DELETE record logged, and the selection cleared only when it pointed at the removed sample's row and column |
| RackManager.ResizedRemovesExactlyOutside | test_tube_tracker/js/rackManager.js:131-145 | after a confirmed edit a sample survives exactly when the rack did not shrink, or it belongs to another rack, or it lies inside the new size |
| RackManager.FindRackAfterEdit | test_tube_tracker/js/rackManager.js:148 | after an edit every id still finds its rack, and the edited id finds the new rack |
| RackManager.EditKeepsConsistent | test_tube_tracker/js/rackManager.js:131-148 | pruning the samples outside the new size and then updating the rack keeps the store consistent |
| RackManager.AffectedAreDeleted | test_tube_tracker/js/rackManager.js:137-141 | when some samples are affected, deleting their ids removes at least one sample |
| RackManager.PruneForResize | test_tube_tracker/js/rackManager.js:131-145 | declined exactly on an unconfirmed shrink that affects samples, and then nothing changes; otherwise exactly the affected samples are deleted, the racks are unchanged, and one DELETE record per deleted sample is prepended |
| RackManager.HandleFormSubmit | test_tube_tracker/js/rackManager.js:101-166 | rejected exactly on an invalid form; an unknown rack or a declined resize changes nothing; a valid form with an empty id, and only that, creates the trimmed rack with its CREATE record; a valid edit of a known rack whose resize is not declined always ends in an update, which prunes and then updates the rack in place, so the MODIFY record comes first in the history, above the DELETE records of the pruned samples, and a consistent store stays consistent |
| RackManager.HandleDeleteClick | test_tube_tracker/js/rackManager.js:75-99 | deletes exactly a known, confirmed rack with its samples, logging the rack's DELETE record above those of its samples and advancing the counter once per record, and resets the sample page only when it was showing that rack |
| HistoryManager.LookupFinds | test_tube_tracker/js/historyManager.js:61 | with distinct keys, a property's key looks up its own value |
| HistoryManager.ChangeListIff | test_tube_tracker/js/historyManager.js:56-72 | the diff lists exactly the current properties whose value differs and the previous properties now gone, never `id`, `createdAt` or `modifiedAt` |
| HistoryManager.NoChangesAgainstItself | test_tube_tracker/js/historyManager.js:71 | a snapshot compared with itself gives the fallback text |
| HistoryManager.ChangesStringCases | test_tube_tracker/js/historyManager.js:71 | the fallback text appears exactly when nothing is reportable; otherwise the non-empty joined changes |
| HistoryManager.RackEditChanges | test_tube_tracker/js/historyManager.js:56-72 | the diff of an `updateRack` record is exactly the edited name, rows and cols, in form order |
| HistoryManager.CollectChanges | test_tube_tracker/js/historyManager.js:58-70 | the two loops push the rendered diff in order |
| HistoryManager.GetChangesString | test_tube_tracker/js/historyManager.js:56-72 | `N/A` without both states; otherwise the joined changes or the fallback text |
| HistoryManager.CanRestoreMatchesStore | test_tube_tracker/js/historyManager.js:22 | a record without the Restore button is refused by the store whatever the state; one with it is never refused for its action or a missing state |
| HistoryManager.RestoreDetailsOrder | test_tube_tracker/js/historyManager.js:48 | for the RESTORE record the store logs, the Details text names the state put back first and the state it replaced second |
| HistoryManager.RackEditDetails | test_tube_tracker/js/historyManager.js:47 | a rack edit that changes no form field shows the fallback text |
| HistoryManager.HandleRestoreClick | test_tube_tracker/js/historyManager.js:75-101 | an unknown record id or a declined confirmation changes nothing; otherwise the store's refusal is reported, or the snapshot is applied and exactly the RESTORE record is prepended |

## Left out

- `fetch`, the network and the server (`tube_organizer/server.js`): `load` and `save` are split at the request. Its outcome is a parameter.
- `alert`, `console` and `confirm`: alerts and logs are not modelled, and a confirmation is a boolean parameter.
- `Date.now`, `Math.random` and `new Date().toISOString()`: timestamps are a parameter. `generateId` is a counter, and the invariants assume every id comes from it.
- `parseInt` and `typeof ... === 'number'` checks: a number field is an `Option<int>`, `None` standing for NaN.
- Text.LowerChar: `toLowerCase` folds only the ASCII letters. The rest of Unicode case mapping is not modelled.
- The `${row}-${col}` keys of `findNextAvailableCell`: they are `Cell` values. The string encoding is injective for integers, so the set holds the same cells.
- tube_organizer/js/dataStore.js is not part of this model. The organizer's sample manager runs against `DataStore.Store`.
- DataStore.Store.RestoreEntity: a record whose snapshot is of the other kind than its `entityType` is refused as `Unsupported`. The JavaScript would push the foreign object into the array.
- Key order of a snapshot: it is the order in which the code builds the object (`HistoryManager.RackFields`, `HistoryManager.SampleFields`). Objects from elsewhere, such as imported files, are not modelled.
- HistoryManager.GenerateDetailsString: a `JSON.stringify` of lone surrogates cannot occur with Dafny characters. The `try`/`catch` fallbacks ("Error displaying details.", "Details unavailable") cannot be reached with the closed `Action` type.
- DOM rendering of every page: `renderLog`, `renderList`, `renderRackGrid`, `renderSearchResults`, the search debounce and `scrollIntoView`. This includes `renderLog`'s `details || entityId`.
- `handleEditClick` of `rackManager.js` only fills the form.
- `sampleControls.js` is not part of this model. This includes its own empty-id check before a request reaches the manager.
- Import and export of data files in `script.js`, and `TEMP/script.js`.
- SoftDeleteStore.Tracker.AddRack: each size field is taken to be empty or a decimal integer. `addRack` tests the raw strings (`!rows`, `rows < 1`) and stores `parseInt` of them; the model tests the parsed value. On other strings, such as "abc" or "0.5e1", the code accepts the rack and stores NaN or 0, which the model refuses.
- The `showSampleDetails` panel of `script.js` is reduced to the selected sample id.
