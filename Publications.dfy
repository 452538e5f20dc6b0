/** Publication reconciliation: for every PublicationID of a profile's
    publication list, the publication node that already carries it is loaded
    (a new one is created otherwise), its mapped fields are brought in line
    with the publication item, it is saved when new or changed, and its id is
    recorded under the PublicationID. */
module Publications {
  import opened Php
  import opened Collections
  import opened FieldMaps
  import opened Entities
  import opened FieldMapping

  const RevisionMessage := "Node synchronized with source data at UCSF Profiles."

  /** The item value a publication field is compared with: the three source
      fields come from the first entry of `PublicationSource`, every other
      field from the item itself. */
  function SourceValue(fn: string, row: Val): Val
    requires fn in PublicationsFieldMap
  {
    var src := PublicationsFieldMap[fn];
    if fn in NestedSourceFields then Index(Element(Index(row, "PublicationSource"), 0), src)
    else Index(row, src)
  }

  /** A declared mapped field whose value differs from the item's. */
  predicate Stale(n: NodeState, row: Val, fn: string)
  {
    fn in PublicationsFieldMap && fn in n.declared && At(n.fields, fn) != SourceValue(fn, row)
  }

  /** Some field in `done` is stale. */
  predicate AnyStale(n: NodeState, row: Val, done: set<string>)
  {
    exists fn :: fn in done && Stale(n, row, fn)
  }

  /** Some declared mapped field differs from the item. */
  predicate Differs(n: NodeState, row: Val)
  {
    AnyStale(n, row, PublicationsFieldMap.Keys)
  }

  /** The fields after the diff of the fields in `done`: every stale one
      takes the item's value. */
  function Patched(n: NodeState, row: Val, done: set<string>): map<string, Val>
  {
    n.fields + Select(done, fn => Stale(n, row, fn), fn => if fn in PublicationsFieldMap then SourceValue(fn, row) else Null)
  }

  /** The node after its diff. */
  function Diffed(n: NodeState, row: Val): NodeState
  {
    n.(fields := Patched(n, row, PublicationsFieldMap.Keys))
  }

  /** A field takes the item's value exactly when it has been diffed and is
      stale; otherwise it keeps the node's value. */
  lemma PatchedAt(n: NodeState, row: Val, done: set<string>, fn: string)
    ensures At(Patched(n, row, done), fn) == if fn in done && Stale(n, row, fn) then SourceValue(fn, row) else At(n.fields, fn)
  {
    var p := f => Stale(n, row, f);
    var g := f => if f in PublicationsFieldMap then SourceValue(f, row) else Null;
    if fn in done && Stale(n, row, fn) {
      assert fn in Select(done, p, g);
    } else {
      assert fn !in Select(done, p, g);
    }
  }

  /** With nothing stale among the diffed fields, the fields are unchanged. */
  lemma PatchedNothing(n: NodeState, row: Val, done: set<string>)
    requires !AnyStale(n, row, done)
    ensures Patched(n, row, done) == n.fields
  {
    var p := f => Stale(n, row, f);
    var g := f => if f in PublicationsFieldMap then SourceValue(f, row) else Null;
    assert Select(done, p, g).Keys == {};
    MergeNothing(n.fields, Select(done, p, g));
  }

  /** Diffing one more field sets it exactly when it is stale. */
  lemma PatchOneMore(n: NodeState, row: Val, done: set<string>, fn: string)
    requires fn in PublicationsFieldMap && fn !in done
    ensures Patched(n, row, done + {fn})
         == if Stale(n, row, fn) then Patched(n, row, done)[fn := SourceValue(fn, row)] else Patched(n, row, done)
  {
    var p := fn => Stale(n, row, fn);
    var f := fn => if fn in PublicationsFieldMap then SourceValue(fn, row) else Null;
    SelectOneMore(done, fn, p, f);
    if Stale(n, row, fn) {
      MergeUpdate(n.fields, Select(done, p, f), fn, SourceValue(fn, row));
    }
  }

  /** One more field is stale-checked. */
  lemma AnyStaleOneMore(n: NodeState, row: Val, done: set<string>, fn: string)
    ensures AnyStale(n, row, done + {fn}) <==> AnyStale(n, row, done) || Stale(n, row, fn)
  {
    if AnyStale(n, row, done + {fn}) {
      var f :| f in done + {fn} && Stale(n, row, f);
      assert f == fn || (f in done && Stale(n, row, f));
    }
  }

  /** The node with the revision message set, as it is saved. */
  function Logged(n: NodeState): NodeState
  {
    n.(fields := n.fields[RevisionLog := Str(RevisionMessage)])
  }

  /** Brings one mapped field of a node in line with the item; `wasStale` tells
      whether it was stale. */
  method DiffField(node: Node, row: Val, fn: string) returns (wasStale: bool)
    requires fn in PublicationsFieldMap
    modifies node
    ensures wasStale <==> Stale(old(node.State()), row, fn)
    ensures node.State() == if wasStale then old(node.State()).(fields := old(node.fields)[fn := SourceValue(fn, row)]) else old(node.State())
  {
    wasStale := false;
    if node.HasField(fn) {
      var source := SourceValue(fn, row);
      if node.Get(fn) != source {
        node.Set(fn, source);
        wasStale := true;
      }
    }
  }

  /** Brings the mapped fields of a node in line with one publication item;
      `changed` tells whether any field was set. */
  method UpdateFromRow(node: Node, row: Val) returns (changed: bool)
    modifies node
    ensures node.State() == Diffed(old(node.State()), row)
    ensures changed <==> Differs(old(node.State()), row)
  {
    ghost var n := node.State();
    changed := false;
    ghost var keys := PublicationsFieldMap.Keys;
    var todo := PublicationsFieldMap.Keys;
    ghost var done: set<string> := {};
    NoKeysDone(keys);
    while todo != {}
      invariant done + todo == keys && done !! todo
      invariant node.declared == n.declared && node.id == n.id && node.isNew == n.isNew
      invariant node.fields == Patched(n, row, done)
      invariant changed <==> AnyStale(n, row, done)
      decreases todo
    {
      var fn :| fn in todo;
      PatchedAt(n, row, done, fn);
      PatchOneMore(n, row, done, fn);
      AnyStaleOneMore(n, row, done, fn);
      MoveKey(done, todo, keys, fn);
      assert Stale(node.State(), row, fn) == Stale(n, row, fn);
      var wasStale := DiffField(node, row, fn);
      if wasStale {
        changed := true;
      }
      todo := todo - {fn};
      done := done + {fn};
    }
  }

  /** The ids reconciliation knows so far, and the store it works on. */
  datatype Progress = Progress(store: Store, nids: map<Val, nat>)

  /** Every known id belongs to a stored node. */
  predicate ProgressOk(p: Progress)
  {
    p.store.Valid() && forall pid :: pid in p.nids ==> p.nids[pid] in p.store.records
  }

  /** The PublicationID query: every listed PublicationID that some stored
      node carries, keyed to such a node (the greatest id when several
      carry it); a listed PublicationID no stored node carries is left out. */
  function InitialIds(st: Store, pids: seq<Val>): (nids: map<Val, nat>)
    requires st.Valid()
    ensures ProgressOk(Progress(st, nids))
    ensures forall pid :: pid in nids ==> pid in pids && Carries(st.records[nids[pid]], pid)
    ensures forall pid, nid :: pid in nids && nid in st.records && Carries(st.records[nid], pid) ==> nid <= nids[pid]
    ensures forall pid, nid :: pid in pids && pid !in nids && nid in st.records ==> !Carries(st.records[nid], pid)
  {
    map pid | pid in pids && Indexed(st, pid).Some? :: Indexed(st, pid).value
  }

  /** The columns of the PublicationID field table: the entity columns and
      the three columns of the link field's properties. */
  const PublicationIdColumns: set<string> := {"bundle", "deleted", "entity_id", "revision_id", "langcode", "delta",
    PublicationIdField + "_uri", PublicationIdField + "_title", PublicationIdField + "_options"}

  /** The column the query's condition reads. */
  const UriColumn := PublicationIdField + "_uri"

  /** The column the query selects first, and keys its result by, as the code spells it. */
  const SelectedColumn := "field_ucsfpufpub_publicationid_uri"

  /** The select at lines 352-356 keyed by `keyColumn`: the database throws
      (None) when the key column or the condition column is not a column of
      the table, and otherwise returns what `InitialIds` gives. */
  function IndexQuery(st: Store, keyColumn: string, pids: seq<Val>): (r: Option<map<Val, nat>>)
    requires st.Valid()
    ensures r.Some? <==> keyColumn in PublicationIdColumns
  {
    if keyColumn in PublicationIdColumns && UriColumn in PublicationIdColumns && "entity_id" in PublicationIdColumns
    then Some(InitialIds(st, pids))
    else None
  }

  /** As the code is written, the query names a column the table does not
      have, so it throws for every list of PublicationIDs. */
  lemma QueryAsWrittenThrows(st: Store, pids: seq<Val>)
    requires st.Valid()
    ensures SelectedColumn !in PublicationIdColumns
    ensures IndexQuery(st, SelectedColumn, pids) == None
  {
  }

  /** Keyed by the column the condition reads, the query finds the stored
      nodes that carry the listed PublicationIDs. */
  lemma QueryAsIntended(st: Store, pids: seq<Val>)
    requires st.Valid()
    ensures IndexQuery(st, UriColumn, pids) == Some(InitialIds(st, pids))
  {
  }

  /** The node reconciled for a PublicationID, before its diff. */
  function Target(b: Backend, p: Progress, pid: Val): NodeState
    requires ProgressOk(p)
  {
    if pid in p.nids then Loaded(p.store, p.nids[pid]) else Created(b, PublicationBundle)
  }

  /** The save decision: a new node, or a node some field of which is stale. */
  predicate SaveFlag(n: NodeState, row: Val)
  {
    n.isNew || Differs(n, row)
  }

  /** The bookkeeping of one iteration for the diffed node `d` of `pid`:
      `d` is saved with the revision message when `save` holds, and its id,
      if it has one, is recorded under `pid`. */
  function Settle(b: Backend, p: Progress, pid: Val, d: NodeState, save: bool): (q: Progress)
    requires ProgressOk(p)
    requires d.id == if pid in p.nids then Some(p.nids[pid]) else None
    ensures ProgressOk(q)
  {
    var r := if save then SaveOutcome(b, p.store, Logged(d)) else (p.store, d, false);
    Progress(r.0, if r.1.id.Some? then p.nids[pid := r.1.id.value] else p.nids)
  }

  /** One iteration of reconciliation. */
  function Step(b: Backend, p: Progress, pid: Val, row: Val): (q: Progress)
    requires ProgressOk(p)
    ensures ProgressOk(q)
  {
    var n := Target(b, p, pid);
    Settle(b, p, pid, Diffed(n, row), SaveFlag(n, row))
  }

  /** Reconciliation of the ids from position `i` on; `rows` is the
      publication list, indexed by the same position as the id. */
  function StepsFrom(b: Backend, p: Progress, pids: seq<Val>, rows: Val, i: nat): (q: Progress)
    requires ProgressOk(p) && i <= |pids|
    ensures ProgressOk(q)
    decreases |pids| - i
  {
    if i == |pids| then p else StepsFrom(b, Step(b, p, pids[i], Element(rows, i)), pids, rows, i + 1)
  }

  /** The whole reconciliation of a publication list against a store. */
  function Reconciled(b: Backend, st: Store, publications: Val): (q: Progress)
    requires st.Valid()
    ensures ProgressOk(q)
  {
    StepsFrom(b, Progress(st, InitialIds(st, Ids(publications))), Ids(publications), publications, 0)
  }

  /** Loads the node recorded for `pid`, or creates a new publication node. */
  method Fetch(storage: Storage, nids: map<Val, nat>, pid: Val) returns (node: Node)
    requires ProgressOk(Progress(storage.State(), nids))
    ensures fresh(node)
    ensures node.State() == Target(storage.backend, Progress(storage.State(), nids), pid)
  {
    if pid in nids {
      node := storage.Load(nids[pid]);
    } else {
      node := storage.Create(PublicationBundle);
    }
  }

  /** Sets the revision message and saves the node when `save` holds. */
  method SaveLogged(storage: Storage, node: Node, save: bool)
    requires storage.Valid()
    modifies storage, node
    ensures storage.Valid()
    ensures var r := if save then SaveOutcome(storage.backend, old(storage.State()), Logged(old(node.State())))
                     else (old(storage.State()), old(node.State()), false);
      storage.State() == r.0 && node.State() == r.1
  {
    if save {
      node.Set(RevisionLog, Str(RevisionMessage));
      var ok := storage.Save(node);
    }
  }

  /** One iteration: loads the node recorded for `pid` or creates one,
      brings it in line with the item, saves it when new or changed and
      records its id. */
  method ReconcileOne(storage: Storage, nids: map<Val, nat>, pid: Val, row: Val) returns (nids': map<Val, nat>)
    requires storage.Valid() && ProgressOk(Progress(storage.State(), nids))
    modifies storage
    ensures storage.Valid()
    ensures Progress(storage.State(), nids') == Step(storage.backend, Progress(old(storage.State()), nids), pid, row)
  {
    var node := Fetch(storage, nids, pid);
    var saveFlag := node.isNew;
    var changed := UpdateFromRow(node, row);
    if changed {
      saveFlag := true;
    }
    SaveLogged(storage, node, saveFlag);
    nids' := nids;
    if node.id.Some? {
      nids' := nids[pid := node.id.value];
    }
  }

  /** Creates or updates the publication nodes of a publication list and
      returns the PublicationID-to-node-id map. */
  method SyncPublications(storage: Storage, publications: Val) returns (nids: map<Val, nat>)
    requires storage.Valid()
    modifies storage
    ensures storage.Valid()
    ensures Progress(storage.State(), nids) == Reconciled(storage.backend, old(storage.State()), publications)
  {
    var pids := Ids(publications);
    nids := InitialIds(storage.State(), pids);
    var index := 0;
    while index < |pids|
      invariant 0 <= index <= |pids|
      invariant ProgressOk(Progress(storage.State(), nids))
      invariant StepsFrom(storage.backend, Progress(storage.State(), nids), pids, publications, index)
             == Reconciled(storage.backend, old(storage.State()), publications)
    {
      ghost var p := Progress(storage.State(), nids);
      nids := ReconcileOne(storage, nids, pids[index], Element(publications, index));
      assert StepsFrom(storage.backend, p, pids, publications, index)
          == StepsFrom(storage.backend, Progress(storage.State(), nids), pids, publications, index + 1);
      index := index + 1;
    }
  }

  /** The record a node is saved as after its diff. */
  function SavedRecord(n: NodeState, row: Val): Record
  {
    var l := Logged(Diffed(n, row));
    Record(l.declared, l.fields)
  }

  /** Ids after settling: a known id is kept; an unknown id is recorded,
      under an id no stored node had, exactly when it is saved and the save
      goes through. */
  lemma SettleIds(b: Backend, p: Progress, pid: Val, d: NodeState, save: bool)
    requires ProgressOk(p)
    requires d.id == if pid in p.nids then Some(p.nids[pid]) else None
    ensures var q := Settle(b, p, pid, d, save);
      && (pid in p.nids ==> q.nids == p.nids)
      && (pid !in p.nids && save && b.accepts(None, Record(d.declared, Logged(d).fields)) ==>
            pid in q.nids && q.nids[pid] !in p.store.records && q.nids == p.nids[pid := q.nids[pid]])
      && (pid !in p.nids && !(save && b.accepts(None, Record(d.declared, Logged(d).fields))) ==> q == p)
  {
    if pid in p.nids {
      assert p.nids[pid := p.nids[pid]] == p.nids;
    }
  }

  /** Ids of one step: an id already known is kept as it is (a loaded node
      keeps its id whether or not its save goes through); an unknown id is
      always saved as a new node and is recorded, under an id no stored node
      had, exactly when that save goes through; otherwise nothing changes. */
  lemma StepIds(b: Backend, p: Progress, pid: Val, row: Val)
    requires ProgressOk(p)
    ensures var q := Step(b, p, pid, row);
      && (pid in p.nids ==> q.nids == p.nids)
      && (pid !in p.nids && b.accepts(None, SavedRecord(Created(b, PublicationBundle), row)) ==>
            pid in q.nids && q.nids[pid] !in p.store.records && q.nids == p.nids[pid := q.nids[pid]])
      && (pid !in p.nids && !b.accepts(None, SavedRecord(Created(b, PublicationBundle), row)) ==>
            q == p)
  {
    var n := Target(b, p, pid);
    var d := Diffed(n, row);
    assert Step(b, p, pid, row) == Settle(b, p, pid, d, SaveFlag(n, row));
    SettleIds(b, p, pid, d, SaveFlag(n, row));
    if pid !in p.nids {
      assert SaveFlag(n, row);
      assert SavedRecord(n, row) == Record(d.declared, Logged(d).fields);
    }
  }

  /** A known publication whose mapped fields all agree with its item is not
      saved: the step changes nothing. */
  lemma {:induction false} CurrentNodeNotSaved(b: Backend, p: Progress, pid: Val, row: Val)
    requires ProgressOk(p) && pid in p.nids
    requires !Differs(Loaded(p.store, p.nids[pid]), row)
    ensures Step(b, p, pid, row) == p
  {
    var n := Loaded(p.store, p.nids[pid]);
    PatchedNothing(n, row, PublicationsFieldMap.Keys);
    assert Diffed(n, row) == n;
    assert !SaveFlag(n, row);
    assert Step(b, p, pid, row) == Settle(b, p, pid, n, false);
    SettleUnsaved(b, p, pid, n);
  }

  /** After its diff, every declared mapped field of a node holds the item's
      value, and every other field is as it was. */
  lemma DiffedMatchesItem(n: NodeState, row: Val)
    ensures forall fn :: fn in PublicationsFieldMap && fn in n.declared ==> At(Diffed(n, row).fields, fn) == SourceValue(fn, row)
    ensures forall fn :: fn !in PublicationsFieldMap || fn !in n.declared ==> At(Diffed(n, row).fields, fn) == At(n.fields, fn)
  {
    forall fn
      ensures At(Diffed(n, row).fields, fn) == if fn in PublicationsFieldMap && fn in n.declared then SourceValue(fn, row) else At(n.fields, fn)
    {
      PatchedAt(n, row, PublicationsFieldMap.Keys, fn);
    }
  }

  /** The revision log is not a mapped field. */
  lemma RevisionLogUnmapped()
    ensures RevisionLog !in PublicationsFieldMap
  {
  }

  /** Without a save, a known id is recorded again as it was and the store
      is untouched. */
  lemma SettleUnsaved(b: Backend, p: Progress, pid: Val, d: NodeState)
    requires ProgressOk(p) && pid in p.nids
    requires d.id == Some(p.nids[pid])
    ensures Settle(b, p, pid, d, false) == p
  {
    assert p.nids[pid := p.nids[pid]] == p.nids;
  }

  /** A save that goes through stores the node with the revision message
      under the id recorded for `pid`. */
  lemma SettleSaves(b: Backend, p: Progress, pid: Val, d: NodeState)
    requires ProgressOk(p)
    requires d.id == if pid in p.nids then Some(p.nids[pid]) else None
    requires b.accepts(d.id, Record(d.declared, Logged(d).fields))
    ensures var q := Settle(b, p, pid, d, true);
      && pid in q.nids && q.nids[pid] in q.store.records
      && q.store.records[q.nids[pid]] == Record(d.declared, d.fields[RevisionLog := Str(RevisionMessage)])
  {
  }

  /** After a save that went through, every declared mapped field of the
      stored node holds the item's value and the revision message is set. */
  lemma {:induction false} SavedNodeMatchesItem(b: Backend, p: Progress, pid: Val, row: Val)
    requires ProgressOk(p)
    requires SaveFlag(Target(b, p, pid), row)
    requires var n := Target(b, p, pid); b.accepts(n.id, SavedRecord(n, row))
    ensures var q := Step(b, p, pid, row);
      && pid in q.nids && q.nids[pid] in q.store.records
      && var saved := q.store.records[q.nids[pid]];
      && saved == SavedRecord(Target(b, p, pid), row)
      && saved.fields[RevisionLog] == Str(RevisionMessage)
      && forall fn :: fn in PublicationsFieldMap && fn in saved.declared ==> At(saved.fields, fn) == SourceValue(fn, row)
  {
    var n := Target(b, p, pid);
    var d := Diffed(n, row);
    var q := Step(b, p, pid, row);
    assert q == Settle(b, p, pid, d, true);
    SettleSaves(b, p, pid, d);
    var saved := q.store.records[q.nids[pid]];
    DiffedMatchesItem(n, row);
    RevisionLogUnmapped();
    forall fn | fn in PublicationsFieldMap && fn in saved.declared
      ensures At(saved.fields, fn) == SourceValue(fn, row)
    {
      assert fn != RevisionLog;
    }
  }

  /** Reconciling the same item twice in a row: once the first save has gone
      through (or nothing needed saving), the second pass saves nothing and
      changes nothing. */
  lemma {:induction false} StepSettles(b: Backend, p: Progress, pid: Val, row: Val)
    requires ProgressOk(p)
    requires var n := Target(b, p, pid); SaveFlag(n, row) ==> b.accepts(n.id, SavedRecord(n, row))
    ensures var q := Step(b, p, pid, row); Step(b, q, pid, row) == q
  {
    var n := Target(b, p, pid);
    var q := Step(b, p, pid, row);
    if SaveFlag(n, row) {
      SavedNodeMatchesItem(b, p, pid, row);
      var m := Loaded(q.store, q.nids[pid]);
      assert m.fields == SavedRecord(n, row).fields;
      CurrentNodeNotSaved(b, q, pid, row);
    } else {
      assert pid in p.nids;
      CurrentNodeNotSaved(b, p, pid, row);
    }
  }

  /** Settling keeps every known id with its node id and every stored node,
      and adds no id but its own. */
  lemma SettleKeeps(b: Backend, p: Progress, pid: Val, d: NodeState, save: bool)
    requires ProgressOk(p)
    requires d.id == if pid in p.nids then Some(p.nids[pid]) else None
    ensures var q := Settle(b, p, pid, d, save);
      && (forall x :: x in p.nids ==> x in q.nids && q.nids[x] == p.nids[x])
      && (forall nid :: nid in p.store.records ==> nid in q.store.records)
      && (forall x :: x in q.nids ==> x in p.nids || x == pid)
  {
  }

  /** Over the rest of a run: ids already known are kept with their node ids,
      stored nodes stay stored, and every id in the result was known or is
      one of the remaining PublicationIDs. */
  lemma {:induction false} StepsKeepIds(b: Backend, p: Progress, pids: seq<Val>, rows: Val, i: nat)
    requires ProgressOk(p) && i <= |pids|
    ensures var q := StepsFrom(b, p, pids, rows, i);
      && (forall pid :: pid in p.nids ==> pid in q.nids && q.nids[pid] == p.nids[pid])
      && (forall nid :: nid in p.store.records ==> nid in q.store.records)
      && (forall pid :: pid in q.nids ==> pid in p.nids || pid in pids[i..])
    decreases |pids| - i
  {
    if i < |pids| {
      var p' := Step(b, p, pids[i], Element(rows, i));
      var n := Target(b, p, pids[i]);
      SettleKeeps(b, p, pids[i], Diffed(n, Element(rows, i)), SaveFlag(n, Element(rows, i)));
      StepsKeepIds(b, p', pids, rows, i + 1);
      SuffixGrows(pids, i);
    }
  }

  /** The returned map: every listed PublicationID that a stored node
      carries keeps the node the query found, every stored node stays
      stored, and only listed PublicationIDs appear. */
  lemma ReconciledIds(b: Backend, st: Store, publications: Val)
    requires st.Valid()
    ensures var q := Reconciled(b, st, publications);
      && (forall pid :: pid in Ids(publications) && Indexed(st, pid).Some? ==> pid in q.nids && q.nids[pid] == Indexed(st, pid).value)
      && (forall nid :: nid in st.records ==> nid in q.store.records)
      && (forall pid :: pid in q.nids ==> pid in Ids(publications))
  {
    var pids := Ids(publications);
    StepsKeepIds(b, Progress(st, InitialIds(st, pids)), pids, publications, 0);
    assert pids[0..] == pids;
  }

  /** When every item carries a PublicationID, the item compared with the
      node for the i-th PublicationID is the item that carries it. */
  lemma RowsAligned(publications: Val)
    requires publications.List?
    requires forall j :: 0 <= j < |publications.items| ==> HasColumn(publications.items[j], PublicationIdKey)
    ensures |Ids(publications)| == |publications.items|
    ensures forall i :: 0 <= i < |Ids(publications)| ==>
      SourceValue(PublicationIdField, Element(publications, i)) == Ids(publications)[i]
  {
    ColumnAligned(publications.items, PublicationIdKey);
    FieldMaps.PublicationTables();
  }

  /** A publication list whose first item has no PublicationID and whose
      second item is the one for P2. */
  const MisalignedList := List([Dict(map["Title" := Str("A")]), Dict(map[PublicationIdKey := Str("P2"), "Title" := Str("B")])])

  /** An item without a PublicationID shifts the pairing: with such an item
      first, the node for the second item's PublicationID is compared with
      the first item. */
  lemma MisalignedRow()
    ensures Ids(MisalignedList) == [Str("P2")]
    ensures SourceValue("title", Element(MisalignedList, 0)) == Str("A")
    ensures SourceValue(PublicationIdField, Element(MisalignedList, 0)) == Null
  {
    var first := MisalignedList.items[0];
    var second := MisalignedList.items[1];
    assert !HasColumn(first, PublicationIdKey);
    assert Column([first, second], PublicationIdKey) == Column([second], PublicationIdKey);
    FieldMaps.PublicationTables();
  }

  /** A store that accepts every save and whose publication bundle declares
      every mapped field. */
  const AcceptAll := Backend((id: Option<nat>, r: Record) => true, (bundle: string) => PublicationsFieldMap.Keys)

  /** Misalignment never settles: while no stored node carries P2, a pass
      over the list creates a new node for P2 under the next free id, but
      diffs it against the first item, so it is stored without a
      PublicationID and the next pass cannot find it either. Each pass
      thus records P2 under a different, newly created node. */
  lemma MisalignedRowNeverSettles(st: Store)
    requires st.Valid() && Indexed(st, Str("P2")).None?
    ensures var q := Reconciled(AcceptAll, st, MisalignedList);
      && st.nextId !in st.records
      && q.nids == map[Str("P2") := st.nextId]
      && q.store.nextId > st.nextId
      && Indexed(q.store, Str("P2")).None?
  {
    var b := AcceptAll;
    var pids := Ids(MisalignedList);
    var row := Element(MisalignedList, 0);
    MisalignedRow();
    assert pids == [Str("P2")];
    var p := Progress(st, InitialIds(st, pids));
    assert p.nids == map[];
    var n := Target(b, p, Str("P2"));
    assert n == Created(b, PublicationBundle);
    var d := Diffed(n, row);
    PatchedAt(n, row, PublicationsFieldMap.Keys, PublicationIdField);
    assert At(d.fields, PublicationIdField) == Null;
    var q1 := Step(b, p, Str("P2"), row);
    assert q1 == Settle(b, p, Str("P2"), d, true);
    assert q1.nids == map[Str("P2") := st.nextId];
    assert q1.store.records == st.records[st.nextId := Record(d.declared, Logged(d).fields)];
    assert !Carries(q1.store.records[st.nextId], Str("P2"));
    assert Reconciled(b, st, MisalignedList) == StepsFrom(b, q1, pids, MisalignedList, 1);
  }
}
