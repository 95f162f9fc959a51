/**
 The rule table kept by `OnChanges`: a dictionary from a document's `_id`
 to the on-change document itself, fed by replication batches.
 This module holds the value-level specification of how one document, and
 a batch of documents applied in order, change that table.
 */
module RuleTable {

  /** An on-change document as far as the cache reads it: `_id`, `_deleted`
      and the `reg_ex` pattern. */
  datatype Doc = Doc(id: string, deleted: bool, regEx: string)

  /** One row of a full snapshot read (`allDocs` with `include_docs`); only
      its document is read. */
  datatype Row = Row(doc: Doc)

  type Table = map<string, Doc>

  /** The shape every reachable table has: no tombstones, and every
      document is stored under its own `_id`. */
  ghost predicate WellFormed(t: Table) {
    forall id :: id in t ==> t[id].id == id && !t[id].deleted
  }

  /** One `_setDoc`: a deleted document removes its key, any other document
      is upserted under its own `_id`. */
  function Apply(t: Table, d: Doc): (r: Table)
    ensures d.deleted ==> d.id !in r
    ensures !d.deleted ==> d.id in r && r[d.id] == d
    ensures forall id :: id != d.id ==> (id in r <==> id in t)
    ensures forall id :: id != d.id && id in t ==> r[id] == t[id]
  {
    if d.deleted then t - {d.id} else t[d.id := d]
  }

  /** A batch applied document by document, left to right. Every entry
      afterwards is either the old entry, unchanged, or a live document of
      the batch stored under its own `_id`. */
  function ApplyAll(t: Table, ds: seq<Doc>): (r: Table)
    ensures forall id :: id in r ==>
              (id in t && r[id] == t[id]) || (r[id] in ds && r[id].id == id && !r[id].deleted)
    decreases |ds|
  {
    if ds == [] then t else ApplyAll(Apply(t, ds[0]), ds[1..])
  }

  /** The documents carried by snapshot rows, in row order. */
  function RowDocs(rows: seq<Row>): (ds: seq<Doc>)
    ensures |ds| == |rows|
    ensures forall i :: 0 <= i < |rows| ==> ds[i] == rows[i].doc
  {
    if rows == [] then [] else [rows[0].doc] + RowDocs(rows[1..])
  }

  /** Applying a document keeps a well-formed table well-formed. */
  lemma ApplyWellFormed(t: Table, d: Doc)
    requires WellFormed(t)
    ensures WellFormed(Apply(t, d))
  {
  }

  /** Applying the same document twice is the same as applying it once. */
  lemma ApplyIdempotent(t: Table, d: Doc)
    ensures Apply(Apply(t, d), d) == Apply(t, d)
  {
  }

  /** Documents with different `_id`s can be applied in either order. */
  lemma ApplyCommutes(t: Table, a: Doc, b: Doc)
    requires a.id != b.id
    ensures Apply(Apply(t, a), b) == Apply(Apply(t, b), a)
  {
  }

  /** Applying a batch and then one more document is applying the longer
      batch: the fold can be extended one step at a time. */
  lemma {:induction false} ApplyAllSnoc(t: Table, ds: seq<Doc>, d: Doc)
    ensures ApplyAll(t, ds + [d]) == Apply(ApplyAll(t, ds), d)
    decreases |ds|
  {
    if ds == [] {
      assert [d][1..] == [];
    } else {
      assert (ds + [d])[0] == ds[0];
      assert (ds + [d])[1..] == ds[1..] + [d];
      ApplyAllSnoc(Apply(t, ds[0]), ds[1..], d);
    }
  }

  /** Every sequence of `_setDoc` calls keeps a well-formed table
      well-formed; in particular every table reached from the empty one. */
  lemma {:induction false} ApplyAllWellFormed(t: Table, ds: seq<Doc>)
    requires WellFormed(t)
    ensures WellFormed(ApplyAll(t, ds))
    decreases |ds|
  {
    if ds != [] {
      ApplyWellFormed(t, ds[0]);
      ApplyAllWellFormed(Apply(t, ds[0]), ds[1..]);
    }
  }

  /** A key that no document of the batch names keeps its entry, or stays
      absent. */
  lemma {:induction false} ApplyAllUntouched(t: Table, ds: seq<Doc>, id: string)
    requires forall k :: 0 <= k < |ds| ==> ds[k].id != id
    ensures id in ApplyAll(t, ds) <==> id in t
    ensures id in t ==> ApplyAll(t, ds)[id] == t[id]
    decreases |ds|
  {
    if ds != [] {
      assert ds[0].id != id;
      ApplyAllUntouched(Apply(t, ds[0]), ds[1..], id);
    }
  }

  /** When several documents of a batch share an `_id`, the last of them
      decides that key: absent if it is deleted, that document otherwise. */
  lemma {:induction false} ApplyAllLastWins(t: Table, ds: seq<Doc>, j: nat)
    requires j < |ds|
    requires forall k :: j < k < |ds| ==> ds[k].id != ds[j].id
    ensures ds[j].deleted ==> ds[j].id !in ApplyAll(t, ds)
    ensures !ds[j].deleted ==> ds[j].id in ApplyAll(t, ds) && ApplyAll(t, ds)[ds[j].id] == ds[j]
    decreases |ds|
  {
    if j == 0 {
      ApplyAllUntouched(Apply(t, ds[0]), ds[1..], ds[0].id);
    } else {
      ApplyAllLastWins(Apply(t, ds[0]), ds[1..], j - 1);
    }
  }

  /** Two batches applied one after the other are the same as their
      concatenation applied as one batch. */
  lemma {:induction false} ApplyAllAppend(t: Table, a: seq<Doc>, b: seq<Doc>)
    ensures ApplyAll(t, a + b) == ApplyAll(ApplyAll(t, a), b)
    decreases |a|
  {
    if a != [] {
      assert (a + b)[0] == a[0];
      assert (a + b)[1..] == a[1..] + b;
      ApplyAllAppend(Apply(t, a[0]), a[1..], b);
    } else {
      assert a + b == b;
    }
  }

  /** A batch without deletions only overlays: the keys afterwards are the
      keys before together with the `_id`s of the batch. */
  lemma {:induction false} ApplyAllKeys(t: Table, ds: seq<Doc>)
    requires forall k :: 0 <= k < |ds| ==> !ds[k].deleted
    ensures ApplyAll(t, ds).Keys == t.Keys + set k | 0 <= k < |ds| :: ds[k].id
    decreases |ds|
  {
    if ds != [] {
      ApplyAllKeys(Apply(t, ds[0]), ds[1..]);
      var ids := set k | 0 <= k < |ds| :: ds[k].id;
      var rest := set k | 0 <= k < |ds[1..]| :: ds[1..][k].id;
      assert ids == {ds[0].id} + rest by {
        forall x | x in ids ensures x in {ds[0].id} + rest {
          var k :| 0 <= k < |ds| && ds[k].id == x;
          if k > 0 { assert ds[1..][k - 1].id == x; }
        }
        forall x | x in rest ensures x in ids {
          var k :| 0 <= k < |ds[1..]| && ds[1..][k].id == x;
          assert ds[k + 1].id == x;
        }
      }
    }
  }

  /** The snapshot rows are read before they are applied, so they can be
      older than the table: a row still carrying a document that a later
      batch deleted stores that document again. */
  lemma StaleRowRestores(t: Table, x: string, p: string, d: Doc)
    requires d.id == x && !d.deleted
    ensures x !in Apply(t, Doc(x, true, p))
    ensures x in ApplyAll(Apply(t, Doc(x, true, p)), RowDocs([Row(d)]))
  {
  }
}
