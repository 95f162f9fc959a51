# OnChanges rule cache (spiegel)

A Dafny model of the `OnChanges` component of spiegel, the CouchDB change
dispatcher. `OnChanges` keeps an in-memory table of the "on-change"
documents, from each document's `_id` to the document. A replication feed
updates the table one batch at a time. The cache then answers one query:
which of a list of database names are selected by the `reg_ex` of at least
one stored document.

The model has three modules:

- `RuleTable` (rule_table.dfy): the document (`Doc`: `_id`, `_deleted`,
  `reg_ex`), the table as a `map<string, Doc>`, and the update as values.
  `Apply` is one `_setDoc`, and `ApplyAll` folds it over a batch left to
  right. The lemmas state what a batch does to the table.
- `Matching` (matching.dfy): the regular-expression engine as a parameter
  (`RegexEngine`: whether `new RegExp(p)` succeeds, and what `test`
  answers), the specification `MatchSet` of the query, and lemmas relating
  it to table updates.
- `OnChangesCache` (on_changes.dfy): the class `OnChanges`. Its field
  `docs` is updated in place by `SetDoc`, `SetDocs`, `LoadAllDocs` and
  `OnPaused`. Each of these is proved against `Apply`/`ApplyAll` and keeps
  the invariant `Valid()`: no stored tombstones, and every document stored
  under its own `_id`. `MatchWithDBNames` runs the source's nested loops
  and is proved equal to `MatchSet`, or to fail when some stored pattern
  does not compile. The ghost flag `loaded` stands for the `'load'` event.
  `All` and `MatchWithDBNames` require it.

A pattern that fails to compile fails the whole `matchWithDBNames` call,
because nothing catches the exception from `new RegExp`. This holds even
for an empty list of names. Documents are visited in the table's order,
which the model leaves open. So when several patterns are bad, the model
only promises that the reported one is a stored pattern that does not
compile.

## Model

| member | source | states |
|---|---|---|
| `RuleTable.Apply` | src/on-changes.js:65-71 | a deleted document's `_id` is absent afterwards; a live document is stored under its `_id`; every other key keeps its presence and its value |
| `RuleTable.ApplyWellFormed` | src/on-changes.js:65-71 | one `_setDoc` keeps the table free of tombstones, with each document under its own `_id` |
| `RuleTable.ApplyIdempotent` | src/on-changes.js:65-71 | applying the same document twice gives the same table as applying it once |
| `RuleTable.ApplyCommutes` | src/on-changes.js:65-71 | documents with different `_id`s can be applied in either order |
| `RuleTable.ApplyAll` | src/on-changes.js:87-91 | applying a batch in order leaves every entry either as it was or as a live document of the batch stored under its own `_id`; no other entry appears |
| `RuleTable.ApplyAllSnoc` | src/on-changes.js:87-91 | the batch fold extends by one document: applying `ds + [d]` is applying `ds`, then `d` |
| `RuleTable.ApplyAllAppend` | src/on-changes.js:87-91 | two batches in a row give the same table as their concatenation as one batch |
| `RuleTable.ApplyAllWellFormed` | src/on-changes.js:24 | every sequence of `_setDoc` calls from a well-formed table (the empty one included) keeps it free of tombstones, each document under its own `_id` |
| `RuleTable.ApplyAllUntouched` | src/on-changes.js:73-78 | a key that no document of the batch or snapshot names keeps its entry, or stays absent |
| `RuleTable.ApplyAllLastWins` | src/on-changes.js:87-91 | when several documents of a batch share an `_id`, the last one decides the entry: absent if deleted, that document otherwise |
| `RuleTable.ApplyAllKeys` | src/on-changes.js:73-78 | a snapshot without deletions only overlays: the keys afterwards are the old keys plus the snapshot's `_id`s |
| `RuleTable.StaleRowRestores` | src/on-changes.js:73-78 | a snapshot row read before a batch deleted its document stores that document again when the rows are applied |
| `RuleTable.RowDocs` | src/on-changes.js:75-77 | the snapshot's documents are the rows' `doc` members, one per row, in row order |
| `Matching.MatchSet` | src/on-changes.js:137-150 | every matched name is one of the candidates; no candidates, or no stored rules, give no matches |
| `Matching.RuleMatches` | src/on-changes.js:141-147 | the names one pattern accepts are among the candidates |
| `Matching.MatchSetInsert` | src/on-changes.js:139-148 | storing a rule under a key adds exactly the names its pattern accepts to those the rest of the table accepts |
| `Matching.MatchSetAfterUpsert` | src/on-changes.js:68-69 | after upserting a live document, the matches are those of the other rules plus those of the new pattern |
| `Matching.MatchSetAfterDelete` | src/on-changes.js:66-67 | after deleting a rule, a name that only that rule matched is no longer matched, and no new name is matched |
| `Matching.MatchSetIgnoresMultiplicity` | src/on-changes.js:144-145 | the matches depend only on which names occur: a repeated candidate is reported once |
| `Matching.MatchSetAppend` | src/on-changes.js:141-147 | matching a concatenated candidate list is the union of matching each part |
| `OnChangesCache.OnChanges.constructor` | src/on-changes.js:24 | a new cache holds no documents, is well-formed and is not yet loaded |
| `OnChangesCache.OnChanges.SetDoc` | src/on-changes.js:65-71 | the new table is `Apply` of the old one: the deleted key is gone, or the live document is stored under its `_id`; well-formedness is kept |
| `OnChangesCache.OnChanges.SetDocs` | src/on-changes.js:87-91 | the new table is the old one with the batch folded in left to right; well-formedness is kept |
| `OnChangesCache.OnChanges.LoadAllDocs` | src/on-changes.js:73-78 | each row's document is applied in order, and a key no row names keeps its entry (the table is not cleared) |
| `OnChangesCache.OnChanges.OnPaused` | src/on-changes.js:80-85 | the snapshot is applied, then the cache is marked loaded |
| `OnChangesCache.OnChanges.All` | src/on-changes.js:121-126 | once loaded, returns the table, whose entries are live documents each under its own `_id` |
| `OnChangesCache.OnChanges.MatchWithDBNames` | src/on-changes.js:128-151 | fails exactly when some stored pattern does not compile, reporting one such pattern; otherwise returns exactly the candidates that at least one stored pattern accepts, each once |

## Left out

- Replication (`start`, `stop`, src/on-changes.js:93-119): the live, retrying PouchDB feed, its `'paused'`, `'change'`, `'error'` and `'complete'` events, and `cancel()`. This is a network transport in a foreign library. The model keeps only the batch application that the `'change'` handler performs (`SetDocs`).
- The `'load'` promise and event fan-out (src/on-changes.js:27, 80-85, 112). The model reduces it to the ghost flag `loaded`, set by `OnPaused` and required by `All` and `MatchWithDBNames`. The `'change'` event emitted after a batch is not modelled.
- Reading the snapshot (`this._db.allDocs`, src/on-changes.js:74). This is a call into PouchDB, so the rows are a parameter of `LoadAllDocs`, and `OnPaused` is one uninterrupted step. In the source the `'change'` handler (src/on-changes.js:107-110) stays active while `_onPaused` awaits that read (src/on-changes.js:74, 81). A batch can therefore land between the read and the row loop, and the rows are then older than the table: a document deleted in that window is stored again (`StaleRowRestores`). The model does not promise that the loaded table reflects the batches applied during the read.
- View provisioning (`_createOnChangesView`, `_createViews`, `_destroyViews`, `create`, `destroy`, src/on-changes.js:30-63). These are calls into the CouchDB client with a constant design document.
- Regular-expression semantics of `new RegExp` and `re.test`. The JavaScript engine is a foreign component. It is the uninterpreted `RegexEngine` parameter. A missing `reg_ex` (which JavaScript turns into the empty pattern) is not distinguished: `regEx` is always a string.
- OnChangesCache.OnChanges.All: returns the table's value as of the call. The source returns the live `this._docs` object itself (src/on-changes.js:125), which later batches change in place and through which a caller could change the cache; that aliasing is not modelled.
- OnChangesCache.OnChanges.MatchWithDBNames: returns a set, not the array of keys from `sporks.keys`, so the order of the returned names is not modelled.
- JavaScript object-key quirks of `this._docs` and `matchingDBNames` (for example an `_id` of `__proto__`) are not modelled: both are plain Dafny maps.
- Logging (`log.error`, src/on-changes.js:105) and the construction of the in-memory PouchDB database (src/on-changes.js:3-4, 22).
- test/index.js only sets up and tears down a live database and holds no logic.
