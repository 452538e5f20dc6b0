/** The content store the synchronisation writes to, abstracted: a node is a
    set of declared fields with values, an id once stored and a "new" flag;
    storage keeps the last saved revision of every node. The PublicationID
    field table that publication reconciliation queries is read off the
    stored revisions. A save may be refused, in which case nothing is stored. */
module Entities {
  import opened Php
  import FieldMaps

  const RevisionLog := "revision_log"
  const TitleField := "title"

  /** A stored revision: the fields its bundle declares and their values. */
  datatype Record = Record(declared: set<string>, fields: map<string, Val>)

  datatype Store = Store(records: map<nat, Record>, nextId: nat)
  {
    /** Ids are handed out above every stored id. */
    predicate Valid()
    {
      && nextId >= 1
      && (forall nid :: nid in records ==> nid < nextId)
    }
  }

  /** A stored revision has a row for `pid` in the PublicationID field table:
      it declares the field and holds that value there. */
  predicate Carries(r: Record, pid: Val)
  {
    FieldMaps.PublicationIdField in r.declared && Isset(r.fields, FieldMaps.PublicationIdField)
    && r.fields[FieldMaps.PublicationIdField] == pid
  }

  /** The field-table rows for `pid` among the nodes with ids below `bound`,
      read in id order with the last one kept. */
  function LastCarrier(st: Store, pid: Val, bound: nat): (r: Option<nat>)
    ensures r.Some? ==> r.value < bound && r.value in st.records && Carries(st.records[r.value], pid)
    ensures r.Some? ==> forall nid :: r.value < nid < bound && nid in st.records ==> !Carries(st.records[nid], pid)
    ensures r.None? ==> forall nid :: nid < bound && nid in st.records ==> !Carries(st.records[nid], pid)
    decreases bound
  {
    if bound == 0 then None
    else if bound - 1 in st.records && Carries(st.records[bound - 1], pid) then Some(bound - 1)
    else LastCarrier(st, pid, bound - 1)
  }

  /** The node the PublicationID query keys under `pid`: a stored node that
      carries it, the one with the greatest id when several do, and none
      when no stored node carries it. */
  function Indexed(st: Store, pid: Val): (r: Option<nat>)
    requires st.Valid()
    ensures r.Some? ==> r.value in st.records && Carries(st.records[r.value], pid)
    ensures r.Some? ==> forall nid :: nid in st.records && Carries(st.records[nid], pid) ==> nid <= r.value
    ensures r.None? <==> forall nid :: nid in st.records ==> !Carries(st.records[nid], pid)
  {
    LastCarrier(st, pid, st.nextId)
  }

  /** What the store does not let the model see: whether a save goes
      through, and which fields a bundle declares. */
  datatype Backend = Backend(accepts: (Option<nat>, Record) -> bool, schemaOf: string -> set<string>)

  datatype NodeState = NodeState(declared: set<string>, fields: map<string, Val>, id: Option<nat>, isNew: bool)

  /** A node the store can save: a node that is not new is stored under its id. */
  predicate Ready(n: NodeState, st: Store)
  {
    !n.isNew ==> n.id.Some? && n.id.value in st.records
  }

  /** `$node->save()`: stored under its id, or a fresh one for a node without
      one, and no longer new; a refused save changes nothing. */
  function SaveOutcome(b: Backend, st: Store, n: NodeState): (r: (Store, NodeState, bool))
    requires st.Valid()
    ensures r.0.Valid()
    ensures r.2 <==> b.accepts(n.id, Record(n.declared, n.fields))
    ensures !r.2 ==> r.0 == st && r.1 == n
    ensures r.2 ==> r.1 == n.(id := r.1.id, isNew := false) && r.1.id.Some?
    ensures r.2 ==> r.0.records == st.records[r.1.id.value := Record(n.declared, n.fields)]
    ensures r.2 ==> r.0.nextId >= st.nextId
    ensures r.2 && n.id.Some? ==> r.1.id == n.id
    ensures r.2 && n.id.None? ==> r.1.id.value !in st.records
  {
    if !b.accepts(n.id, Record(n.declared, n.fields)) then (st, n, false)
    else
      var nid := if n.id.Some? then n.id.value else st.nextId;
      var next := if nid >= st.nextId then nid + 1 else st.nextId;
      var st' := Store(st.records[nid := Record(n.declared, n.fields)], next);
      (st', n.(id := Some(nid), isNew := false), true)
  }

  /** The PublicationID query after a save that went through: the saved node
      is found under the PublicationID it was saved with (unless a node with
      a greater id carries it too) and under no other. A PublicationID that
      found another node still finds a node, never one with a smaller id,
      and the same node unless the saved node carries it too. */
  lemma SaveReindexes(b: Backend, st: Store, n: NodeState, pid: Val)
    requires st.Valid()
    ensures var r := SaveOutcome(b, st, n);
      r.2 ==>
        && (Carries(Record(n.declared, n.fields), pid) ==> Indexed(r.0, pid).Some? && Indexed(r.0, pid).value >= r.1.id.value)
        && (!Carries(Record(n.declared, n.fields), pid) ==> Indexed(r.0, pid) != r.1.id)
        && (Indexed(st, pid).Some? && Indexed(st, pid) != r.1.id ==>
              && Indexed(r.0, pid).Some?
              && Indexed(r.0, pid).value >= Indexed(st, pid).value
              && (!Carries(Record(n.declared, n.fields), pid) ==> Indexed(r.0, pid) == Indexed(st, pid)))
  {
    var r := SaveOutcome(b, st, n);
    if r.2 {
      var nid := r.1.id.value;
      assert r.0.records[nid] == Record(n.declared, n.fields);
      if Indexed(st, pid).Some? && Indexed(st, pid) != r.1.id {
        var prev := Indexed(st, pid).value;
        assert r.0.records[prev] == st.records[prev];
      }
    }
  }

  /** A node entity object; `set` changes it in place. */
  class Node {
    const declared: set<string>
    var fields: map<string, Val>
    var id: Option<nat>
    var isNew: bool

    constructor (declared: set<string>, fields: map<string, Val>, id: Option<nat>, isNew: bool)
      ensures State() == NodeState(declared, fields, id, isNew)
    {
      this.declared := declared;
      this.fields := fields;
      this.id := id;
      this.isNew := isNew;
    }

    function State(): NodeState
      reads this
    {
      NodeState(declared, fields, id, isNew)
    }

    /** `$node->hasField($fn)`. */
    predicate HasField(fn: string)
    {
      fn in declared
    }

    /** `$node->{$fn}`: a field without a value reads as null. */
    function Get(fn: string): Val
      reads this
    {
      At(fields, fn)
    }

    /** `$node->label()`, the title. */
    function Label(): Val
      reads this
    {
      At(fields, TitleField)
    }

    /** `$node->set($fn, $v)`. */
    method Set(fn: string, v: Val)
      modifies this
      ensures State() == old(State()).(fields := old(fields)[fn := v])
    {
      fields := fields[fn := v];
    }
  }

  /** The node storage. */
  class Storage {
    const backend: Backend
    var records: map<nat, Record>
    var nextId: nat

    constructor (backend: Backend, st: Store)
      ensures this.backend == backend && State() == st
    {
      this.backend := backend;
      this.records := st.records;
      this.nextId := st.nextId;
    }

    function State(): Store
      reads this
    {
      Store(records, nextId)
    }

    predicate Valid()
      reads this
    {
      State().Valid()
    }

    /** `$storage->load($nid)` of a stored node. */
    method Load(nid: nat) returns (n: Node)
      requires nid in records
      ensures fresh(n)
      ensures n.State() == Loaded(State(), nid)
    {
      n := new Node(records[nid].declared, records[nid].fields, Some(nid), false);
    }

    /** `$storage->create(['type' => $bundle])`: a new node of the bundle. */
    method Create(bundle: string) returns (n: Node)
      ensures fresh(n)
      ensures n.State() == Created(backend, bundle)
    {
      n := new Node(backend.schemaOf(bundle), map["type" := Str(bundle)], None, true);
    }

    /** `$node->save()`; `ok` is false when the save threw. */
    method Save(n: Node) returns (ok: bool)
      requires Valid()
      modifies this, n
      ensures Valid()
      ensures (State(), n.State(), ok) == SaveOutcome(backend, old(State()), old(n.State()))
    {
      var r := SaveOutcome(backend, State(), n.State());
      ok := r.2;
      if ok {
        records, nextId := r.0.records, r.0.nextId;
        n.id, n.isNew := r.1.id, false;
      }
    }
  }

  /** A stored node as loading it gives it: its last saved revision. */
  function Loaded(st: Store, nid: nat): NodeState
    requires nid in st.records
  {
    NodeState(st.records[nid].declared, st.records[nid].fields, Some(nid), false)
  }

  /** A node created for a bundle, before it is saved. */
  function Created(b: Backend, bundle: string): NodeState
  {
    NodeState(b.schemaOf(bundle), map["type" := Str(bundle)], None, true)
  }
}
