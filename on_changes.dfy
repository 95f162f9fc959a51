/**
 The `OnChanges` cache of the change dispatcher: an in-memory copy of the
 on-change documents, updated in place from replication batches and the
 initial snapshot, and queried for the database names those documents'
 patterns select.
 */
module OnChangesCache {
  import opened RuleTable
  import opened Matching

  class OnChanges {
    /** `_docs`: document `_id` to document. */
    var docs: Table
    /** Whether the `'load'` event has fired (the initial snapshot landed). */
    ghost var loaded: bool

    ghost predicate Valid()
      reads this
    {
      WellFormed(docs)
    }

    /** A new cache holds no documents and is not yet loaded. */
    constructor ()
      ensures Valid()
      ensures docs == map[] && !loaded
    {
      docs := map[];
      loaded := false;
    }

    /** `_setDoc`: remove the key of a deleted document, otherwise store the
        document under its own `_id`; no other entry changes. */
    method SetDoc(doc: Doc)
      requires Valid()
      modifies this`docs
      ensures Valid()
      ensures docs == Apply(old(docs), doc)
      ensures doc.deleted ==> doc.id !in docs
      ensures !doc.deleted ==> doc.id in docs && docs[doc.id] == doc
    {
      ApplyWellFormed(docs, doc);
      if doc.deleted {
        docs := docs - {doc.id};
      } else {
        docs := docs[doc.id := doc];
      }
    }

    /** `_setDocs`: one replication batch, applied in order. */
    method SetDocs(batch: seq<Doc>)
      requires Valid()
      modifies this`docs
      ensures Valid()
      ensures docs == ApplyAll(old(docs), batch)
    {
      var i := 0;
      while i < |batch|
        invariant 0 <= i <= |batch|
        invariant Valid()
        invariant docs == ApplyAll(old(docs), batch[..i])
      {
        ApplyAllSnoc(old(docs), batch[..i], batch[i]);
        assert batch[..i + 1] == batch[..i] + [batch[i]];
        SetDoc(batch[i]);
        i := i + 1;
      }
      assert batch[..i] == batch;
    }

    /** `_loadAllDocs` once the rows are read: each row's document is applied
        as by `_setDoc`. The table is not cleared first, so a key that no
        row names keeps its entry. */
    method LoadAllDocs(rows: seq<Row>)
      requires Valid()
      modifies this`docs
      ensures Valid()
      ensures docs == ApplyAll(old(docs), RowDocs(rows))
      ensures forall id :: id in old(docs) && (forall k :: 0 <= k < |rows| ==> rows[k].doc.id != id) ==>
                id in docs && docs[id] == old(docs)[id]
    {
      var i := 0;
      while i < |rows|
        invariant 0 <= i <= |rows|
        invariant Valid()
        invariant docs == ApplyAll(old(docs), RowDocs(rows)[..i])
      {
        ApplyAllSnoc(old(docs), RowDocs(rows)[..i], rows[i].doc);
        assert RowDocs(rows)[..i + 1] == RowDocs(rows)[..i] + [rows[i].doc];
        SetDoc(rows[i].doc);
        i := i + 1;
      }
      assert RowDocs(rows)[..i] == RowDocs(rows);
      forall id | id in old(docs) && (forall k :: 0 <= k < |rows| ==> rows[k].doc.id != id)
        ensures id in docs && docs[id] == old(docs)[id]
      {
        ApplyAllUntouched(old(docs), RowDocs(rows), id);
      }
    }

    /** `_onPaused`: load the snapshot, then latch `'load'`. */
    method OnPaused(rows: seq<Row>)
      requires Valid()
      modifies this
      ensures Valid() && loaded
      ensures docs == ApplyAll(old(docs), RowDocs(rows))
    {
      LoadAllDocs(rows);
      loaded := true;
    }

    /** `all`: once loaded, the table itself, whose entries are live
        documents each stored under its own `_id`. */
    method All() returns (r: Table)
      requires Valid() && loaded
      ensures r == docs
      ensures forall id :: id in r ==> r[id].id == id && !r[id].deleted
    {
      r := docs;
    }

    /** `matchWithDBNames`: each stored pattern is compiled once and tested
        against every name; hits are collected as keys so duplicates
        collapse. A pattern that fails to compile aborts the whole call. */
    method MatchWithDBNames(e: RegexEngine, dbNames: seq<string>) returns (r: MatchResult)
      requires loaded
      ensures r.InvalidRegEx? <==> !AllCompile(e, docs)
      ensures r.InvalidRegEx? ==> !e.compiles(r.regEx) && exists id :: id in docs && docs[id].regEx == r.regEx
      ensures r.Matched? ==> r.names == MatchSet(e, docs, dbNames)
    {
      var matching: map<string, bool> := map[];
      var pending := docs.Keys;
      while pending != {}
        invariant pending <= docs.Keys
        invariant AllCompile(e, docs - pending)
        invariant matching.Keys == MatchSet(e, docs - pending, dbNames)
        decreases pending
      {
        var id :| id in pending;
        var doc := docs[id];
        if !e.compiles(doc.regEx) {
          return InvalidRegEx(doc.regEx);
        }
        ghost var before := matching.Keys;
        var i := 0;
        while i < |dbNames|
          invariant 0 <= i <= |dbNames|
          invariant matching.Keys == before + RuleMatches(e, doc.regEx, dbNames[..i])
        {
          assert dbNames[..i + 1] == dbNames[..i] + [dbNames[i]];
          if e.test(doc.regEx, dbNames[i]) {
            matching := matching[dbNames[i] := true];
          }
          i := i + 1;
        }
        assert dbNames[..i] == dbNames;
        assert docs - (pending - {id}) == (docs - pending)[id := doc];
        assert (docs - pending) - {id} == docs - pending;
        MatchSetInsert(e, docs - pending, id, doc, dbNames);
        pending := pending - {id};
      }
      assert docs - {} == docs;
      r := Matched(matching.Keys);
    }
  }
}
