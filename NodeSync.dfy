/** The node synchronisation: look the node's person up by e-mail, read the
    sub-entries and the profile, reconcile the publications, map and redact
    the values, let the pre-save hook adjust them, set them on the node and
    save it when it is new or some value differs from its stored revision. */
module NodeSync {
  import opened Php
  import opened Collections
  import opened FieldMaps
  import opened LdapManager
  import opened Entities
  import opened FieldMapping
  import opened Redaction
  import opened Publications

  const SyncMessage := "Node synchronized with source data at UCSF EDS and UCSF Profiles."
  const UidAttribute := "uid"
  const DeptAttribute := "ucsfEduPrimaryDepartmentNumber"
  const UcidAttribute := "ucsfEduIDNumber"

  /** The sub-lookups made from the primary entry: both address entries when
      it has a uid, the department entry when it has a department number;
      FALSE when the value is missing or falsy. */
  function SourcesOf(m: Manager, eds: Entry): (s: Sources)
    ensures s.eds == eds
    ensures s.campus.Found? ==> !Empty(FirstValue(eds, UidAttribute))
    ensures s.practice.Found? ==> !Empty(FirstValue(eds, UidAttribute))
    ensures s.dept.Found? ==> !Empty(FirstValue(eds, DeptAttribute))
  {
    var uid := FirstValue(eds, UidAttribute);
    var dept := FirstValue(eds, DeptAttribute);
    Sources(eds,
      if !Empty(uid) then m.SearchAddressByUid(uid.s, CampusAddress) else Failed,
      if !Empty(uid) then m.SearchAddressByUid(uid.s, PracticeAddress) else Failed,
      if !Empty(dept) then m.SearchByDept(dept.s) else Failed)
  }

  /** The profile lookup: by the entry's UCSF ID, FALSE without one. */
  function ProfileOf(m: Manager, eds: Entry): (r: Lookup)
    ensures r.Found? ==> !Empty(FirstValue(eds, UcidAttribute))
  {
    var ucid := FirstValue(eds, UcidAttribute);
    if !Empty(ucid) then m.SearchByUcid(ucid.s) else Failed
  }

  /** Publication reconciliation runs for a node that declares the
      publications field when the profile lists PublicationIDs. */
  function PublicationStage(b: Backend, st: Store, declared: set<string>, doc: map<string, Val>): (q: Progress)
    requires st.Valid()
    ensures ProgressOk(q)
    ensures PublicationsField !in declared || PublicationIds(doc) == [] ==> q == Progress(st, map[])
  {
    var v := At(doc, ProfilesFieldMap[PublicationsField]);
    if PublicationsField in declared && !Empty(v) && Ids(v) != [] then Reconciled(b, st, v)
    else Progress(st, map[])
  }

  /** What the synchronisation prepares before it touches the node: the
      store after publication reconciliation and the values the hook returns. */
  datatype Prepared = Prepared(pubs: Progress, hookInput: map<string, Val>, values: map<string, Val>)

  /** The mapped values: the EDS values, and the profile values when the
      profile lookup found an entry. */
  function Gathered(m: Manager, declared: set<string>, s: Sources, profile: Lookup, nids: map<Val, nat>): map<string, Val>
  {
    if profile.Found? then EdsValues(declared, s) + ProfileValues(declared, m.profileView(profile.entry), nids)
    else EdsValues(declared, s)
  }

  function Prepare(m: Manager, b: Backend, declared: set<string>, st: Store, eds: Entry): (p: Prepared)
    requires st.Valid()
    ensures ProgressOk(p.pubs)
    ensures p.values == m.presave(p.hookInput)
    ensures !ProfileOf(m, eds).Found? ==> p.pubs == Progress(st, map[])
    ensures p.hookInput == Redacted(Gathered(m, declared, SourcesOf(m, eds), ProfileOf(m, eds), p.pubs.nids), m.allowedReleaseCodes)
  {
    var s := SourcesOf(m, eds);
    var profile := ProfileOf(m, eds);
    var pubs := if profile.Found? then PublicationStage(b, st, declared, m.profileView(profile.entry)) else Progress(st, map[]);
    var redacted := Redacted(Gathered(m, declared, s, profile, pubs.nids), m.allowedReleaseCodes);
    Prepared(pubs, redacted, m.presave(redacted))
  }

  /** The fields of the stored revision of a node; none for a node without one. */
  function Unchanged(n: NodeState, st: Store): map<string, Val>
  {
    if n.id.Some? && n.id.value in st.records then st.records[n.id.value].fields else map[]
  }

  /** A value among `keys` that the node declares and that differs from the stored revision. */
  predicate AnyChange(n: NodeState, stored: map<string, Val>, values: map<string, Val>, keys: set<string>)
  {
    exists fn :: fn in keys && fn in values && fn in n.declared && values[fn] != At(stored, fn)
  }

  /** The node's fields with the values of the declared fields among `keys` set. */
  function Overlaid(n: NodeState, values: map<string, Val>, keys: set<string>): map<string, Val>
  {
    n.fields + map fn | fn in keys && fn in values && fn in n.declared :: values[fn]
  }

  function Overlay(n: NodeState, values: map<string, Val>): NodeState
  {
    n.(fields := Overlaid(n, values, values.Keys))
  }

  /** The outcome of a synchronisation: the return value, the node object and the store. */
  datatype Outcome = Outcome(updated: bool, node: NodeState, store: Store)

  /** A save is due: the node is new or some declared value differs from
      its stored revision. */
  predicate SaveDue(n: NodeState, st: Store, values: map<string, Val>)
  {
    n.isNew || AnyChange(n, Unchanged(n, st), values, values.Keys)
  }

  /** The record a due save hands to the store: the node with the values set
      and the revision message. */
  function CommitRecord(n: NodeState, values: map<string, Val>): Record
  {
    var node := Overlay(n, values);
    Record(node.declared, node.fields[RevisionLog := Str(SyncMessage)])
  }

  /** Setting the values and saving: the save is attempted when the node is
      new or some declared value differs from the stored revision, and
      `updated` tells whether it went through. */
  function Commit(b: Backend, n: NodeState, st: Store, values: map<string, Val>): (o: Outcome)
    requires st.Valid()
    ensures o.store.Valid()
  {
    var node := Overlay(n, values);
    if SaveDue(n, st, values) then
      var r := SaveOutcome(b, st, node.(fields := node.fields[RevisionLog := Str(SyncMessage)]));
      Outcome(r.2, r.1, r.0)
    else Outcome(false, node, st)
  }

  /** The whole synchronisation of one node. */
  function SyncResult(m: Manager, b: Backend, n: NodeState, st: Store): (o: Outcome)
    requires st.Valid()
    ensures o.store.Valid()
    ensures !m.HasLdap() ==> o == Outcome(false, n, st)
    ensures Empty(At(n.fields, TitleField)) ==> o == Outcome(false, n, st)
    ensures !m.SearchByEmail(StringOf(At(n.fields, TitleField))).Found? ==> o == Outcome(false, n, st)
    ensures !m.emailIsValid(StringOf(At(n.fields, TitleField))) ==> o == Outcome(false, n, st)
  {
    var email := At(n.fields, TitleField);
    if !m.HasLdap() || Empty(email) then Outcome(false, n, st)
    else
      var eds := m.SearchByEmail(StringOf(email));
      if !eds.Found? then Outcome(false, n, st)
      else
        var p := Prepare(m, b, n.declared, st, eds.entry);
        Commit(b, n, p.pubs.store, p.values)
  }

  /** The save decision and its outcome: `updated` is true exactly when a
      save was due and the store accepted it, and then the node is stored
      with every declared value and the revision message; without it nothing
      is stored. A due save sets the revision message on the node whether or
      not it goes through. Only declared fields are set, and when nothing
      differs from the stored revision of a node that is not new, no save is
      attempted. */
  lemma {:induction false} CommitOutcome(b: Backend, n: NodeState, st: Store, values: map<string, Val>)
    requires st.Valid()
    ensures var o := Commit(b, n, st, values);
      && (!o.updated ==> o.store == st)
      && (o.updated ==> n.isNew || AnyChange(n, Unchanged(n, st), values, values.Keys))
      && (o.updated ==> (!o.node.isNew && o.node.id.Some? && o.node.id.value in o.store.records
            && o.store.records[o.node.id.value] == Record(o.node.declared, o.node.fields)
            && o.node.fields[RevisionLog] == Str(SyncMessage)
            && forall fn :: fn in values && fn in n.declared && fn != RevisionLog ==> o.node.fields[fn] == values[fn]))
      && (forall fn :: fn !in n.declared && fn != RevisionLog ==> At(o.node.fields, fn) == At(n.fields, fn))
      && (!n.isNew && !AnyChange(n, Unchanged(n, st), values, values.Keys) ==> !o.updated && o.node == Overlay(n, values))
      && (SaveDue(n, st, values) ==>
            o.node.fields[RevisionLog] == Str(SyncMessage) && (o.updated <==> b.accepts(n.id, CommitRecord(n, values))))
  {
    var node := Overlay(n, values);
    forall fn | fn !in n.declared
      ensures At(node.fields, fn) == At(n.fields, fn)
    {
      assert fn !in map f | f in values.Keys && f in values && f in n.declared :: values[f];
    }
  }

  /** Synchronising again with the same values right after a save that went
      through saves nothing, as long as the values do not set the revision
      message field of a node that declares it to anything but the message. */
  lemma {:induction false} CommitSettles(b: Backend, n: NodeState, st: Store, values: map<string, Val>)
    requires st.Valid()
    requires RevisionLog in values && RevisionLog in n.declared ==> values[RevisionLog] == Str(SyncMessage)
    requires Commit(b, n, st, values).updated
    ensures var o := Commit(b, n, st, values);
      Commit(b, o.node, o.store, values) == Outcome(false, o.node, o.store)
  {
    CommitOutcome(b, n, st, values);
    var o := Commit(b, n, st, values);
    assert Unchanged(o.node, o.store) == o.node.fields;
    assert o.node.declared == n.declared;
    assert !AnyChange(o.node, o.node.fields, values, values.Keys);
    assert Overlaid(o.node, values, values.Keys) == o.node.fields;
  }

  /** A value for the revision message field other than the message, on a
      node that declares the field, makes a save due again right after a
      save that went through. */
  lemma HookRevisionLogResaves(b: Backend, n: NodeState, st: Store, values: map<string, Val>)
    requires st.Valid()
    requires RevisionLog in values && RevisionLog in n.declared && values[RevisionLog] != Str(SyncMessage)
    requires Commit(b, n, st, values).updated
    ensures var o := Commit(b, n, st, values); SaveDue(o.node, o.store, values)
  {
    CommitOutcome(b, n, st, values);
    var o := Commit(b, n, st, values);
    assert Unchanged(o.node, o.store) == o.node.fields;
    assert o.node.declared == n.declared;
    assert values[RevisionLog] != At(o.node.fields, RevisionLog);
  }

  /** The return value of the whole synchronisation: with a directory and an
      e-mail that finds an entry it is true exactly when a save of the
      prepared values was due and the store accepted it; otherwise it is
      false. When true, the node is stored as it stands with the revision
      message. No stored node is ever removed. */
  lemma SyncOutcome(m: Manager, b: Backend, n: NodeState, st: Store)
    requires st.Valid()
    ensures var o := SyncResult(m, b, n, st);
      var eds := m.SearchByEmail(StringOf(At(n.fields, TitleField)));
      m.HasLdap() && !Empty(At(n.fields, TitleField)) && eds.Found? ==>
        var p := Prepare(m, b, n.declared, st, eds.entry);
        (o.updated <==> SaveDue(n, p.pubs.store, p.values) && b.accepts(n.id, CommitRecord(n, p.values)))
    ensures var o := SyncResult(m, b, n, st);
      && (o.updated ==> (m.HasLdap() && m.SearchByEmail(StringOf(At(n.fields, TitleField))).Found?
            && !o.node.isNew && o.node.id.Some? && o.node.id.value in o.store.records
            && o.store.records[o.node.id.value] == Record(o.node.declared, o.node.fields)
            && o.node.fields[RevisionLog] == Str(SyncMessage)))
      && (forall nid :: nid in st.records ==> nid in o.store.records)
  {
    var email := At(n.fields, TitleField);
    if m.HasLdap() && !Empty(email) {
      var eds := m.SearchByEmail(StringOf(email));
      if eds.Found? {
        var p := Prepare(m, b, n.declared, st, eds.entry);
        CommitOutcome(b, n, p.pubs.store, p.values);
        var profile := ProfileOf(m, eds.entry);
        if profile.Found? {
          var doc := m.profileView(profile.entry);
          var v := At(doc, ProfilesFieldMap[PublicationsField]);
          if PublicationsField in n.declared && !Empty(v) && Ids(v) != [] {
            ReconciledIds(b, st, v);
          }
        }
      }
    }
  }

  /** Only fields the node declares reach the hook, EDS fields and profile
      fields; profile fields only when the profile lookup found an entry,
      and without one no publication is reconciled. */
  lemma HookInputFields(m: Manager, b: Backend, declared: set<string>, st: Store, eds: Entry)
    requires st.Valid()
    ensures var p := Prepare(m, b, declared, st, eds);
      && p.hookInput.Keys <= declared * (EdsFieldMap.Keys + ProfilesFieldMap.Keys)
      && EdsFieldMap.Keys * declared <= p.hookInput.Keys
      && (!ProfileOf(m, eds).Found? ==> p.pubs.store == st && p.hookInput.Keys * ProfilesFieldMap.Keys == {})
  {
    var s := SourcesOf(m, eds);
    var profile := ProfileOf(m, eds);
    var p := Prepare(m, b, declared, st, eds);
    var values := Gathered(m, declared, s, profile, p.pubs.nids);
    RedactionOnlyNulls(values, m.allowedReleaseCodes);
    GatheredKeys(m, declared, s, profile, p.pubs.nids);
  }

  /** The mapped values have a key for every declared EDS field, and their
      other keys are declared profile fields, present only with a profile. */
  lemma GatheredKeys(m: Manager, declared: set<string>, s: Sources, profile: Lookup, nids: map<Val, nat>)
    ensures var values := Gathered(m, declared, s, profile, nids);
      && values.Keys <= declared * (EdsFieldMap.Keys + ProfilesFieldMap.Keys)
      && EdsFieldMap.Keys * declared <= values.Keys
      && (!profile.Found? ==> values.Keys * ProfilesFieldMap.Keys == {})
  {
    EdsFieldSources(declared, s);
    FieldMaps.TablesDisjoint();
  }

  /** The entry release code is read from the primary entry. */
  lemma EntryCodeFromPrimary(declared: set<string>, s: Sources)
    requires EntryCode in declared
    ensures EntryCode in EdsValues(declared, s)
    ensures EdsValues(declared, s)[EntryCode] == FirstValue(s.eds, EdsFieldMap[EntryCode])
  {
    assert EntryCode !in CampusFields + PracticeFields + {DeptField};
  }

  /** A locked entry reaches the hook fully redacted: when the node declares
      the entry release code and the primary entry's code is not allowed, no
      field of either table is set in what the hook receives. */
  lemma LockedEntryReachesHook(m: Manager, b: Backend, declared: set<string>, st: Store, eds: Entry)
    requires st.Valid()
    requires EntryCode in declared
    requires var code := FirstValue(eds, EdsFieldMap[EntryCode]); code != Null && code !in m.allowedReleaseCodes
    ensures var p := Prepare(m, b, declared, st, eds);
      forall k :: k in EdsFieldMap || k in ProfilesFieldMap ==> !Isset(p.hookInput, k)
  {
    var s := SourcesOf(m, eds);
    var p := Prepare(m, b, declared, st, eds);
    var values := Gathered(m, declared, s, ProfileOf(m, eds), p.pubs.nids);
    GatheredEntryCode(m, declared, s, ProfileOf(m, eds), p.pubs.nids);
    EntryLockdownSupersedes(values, m.allowedReleaseCodes);
  }

  /** The entry release code among the mapped values is the primary entry's. */
  lemma GatheredEntryCode(m: Manager, declared: set<string>, s: Sources, profile: Lookup, nids: map<Val, nat>)
    requires EntryCode in declared
    ensures var values := Gathered(m, declared, s, profile, nids);
      EntryCode in values && values[EntryCode] == FirstValue(s.eds, EdsFieldMap[EntryCode])
  {
    EntryCodeFromPrimary(declared, s);
    assert EntryCode !in ProfilesFieldMap;
  }

  /** Setting one more value: its field takes it when declared, and it is a
      change exactly when it differs from the stored revision. */
  lemma OverlayOneMore(n: NodeState, stored: map<string, Val>, values: map<string, Val>, done: set<string>, fn: string)
    requires fn in values && fn !in done
    ensures Overlaid(n, values, done + {fn})
         == if fn in n.declared then Overlaid(n, values, done)[fn := values[fn]] else Overlaid(n, values, done)
    ensures AnyChange(n, stored, values, done + {fn})
       <==> AnyChange(n, stored, values, done) || (fn in n.declared && values[fn] != At(stored, fn))
  {
    var m := map f | f in done && f in values && f in n.declared :: values[f];
    var m' := map f | f in done + {fn} && f in values && f in n.declared :: values[f];
    if fn in n.declared {
      assert m' == m[fn := values[fn]];
      MergeUpdate(n.fields, m, fn, values[fn]);
    } else {
      assert m' == m;
    }
  }

  /** Sets every declared field to its value and tells whether a save is
      due: `flag` starts as the node's "new" flag and turns on at the first
      value that differs from the stored revision. */
  method ApplyValues(node: Node, values: map<string, Val>, stored: map<string, Val>, flag0: bool) returns (flag: bool)
    modifies node
    ensures node.State() == Overlay(old(node.State()), values)
    ensures flag <==> flag0 || AnyChange(old(node.State()), stored, values, values.Keys)
  {
    ghost var n := node.State();
    flag := flag0;
    var todo := values.Keys;
    assert values.Keys - todo == {};
    while todo != {}
      invariant todo <= values.Keys
      invariant node.declared == n.declared && node.id == n.id && node.isNew == n.isNew
      invariant node.fields == Overlaid(n, values, values.Keys - todo)
      invariant flag <==> flag0 || AnyChange(n, stored, values, values.Keys - todo)
      decreases todo
    {
      var fn :| fn in todo;
      ghost var done := values.Keys - todo;
      OverlayOneMore(n, stored, values, done, fn);
      if node.HasField(fn) {
        node.Set(fn, values[fn]);
        if !flag && node.Get(fn) != At(stored, fn) {
          flag := true;
        }
      }
      todo := todo - {fn};
      assert values.Keys - todo == done + {fn};
    }
    assert values.Keys - todo == values.Keys;
  }

  /** The profile values of the fields in `done`. */
  function ProfileValuesOver(done: set<string>, declared: set<string>, doc: map<string, Val>, nids: map<Val, nat>): map<string, Val>
  {
    map fn | fn in ProfilesFieldMap && fn in done && fn in declared :: ProfileValue(fn, ProfilesFieldMap[fn], doc, nids)
  }

  lemma ProfileValuesOneMore(done: set<string>, declared: set<string>, doc: map<string, Val>, nids: map<Val, nat>, fn: string)
    requires fn in ProfilesFieldMap && fn !in done
    ensures ProfileValuesOver(done + {fn}, declared, doc, nids)
         == if fn in declared then ProfileValuesOver(done, declared, doc, nids)[fn := ProfileValue(fn, ProfilesFieldMap[fn], doc, nids)]
            else ProfileValuesOver(done, declared, doc, nids)
  {
  }

  lemma ProfileValuesNone(declared: set<string>, doc: map<string, Val>, nids: map<Val, nat>)
    ensures ProfileValuesOver({}, declared, doc, nids) == map[]
  {
  }

  lemma ProfileValuesAll(declared: set<string>, doc: map<string, Val>, nids: map<Val, nat>)
    ensures ProfileValuesOver(ProfilesFieldMap.Keys, declared, doc, nids) == ProfileValues(declared, doc, nids)
  {
  }

  /** One more profile field: its value joins the others; reconciling the
      publications changes none of the values already there. */
  lemma ProfileValuesStep(values0: map<string, Val>, done: set<string>, declared: set<string>, doc: map<string, Val>,
                          nids0: map<Val, nat>, nids: map<Val, nat>, fn: string)
    requires fn in ProfilesFieldMap && fn !in done
    requires fn != PublicationsField || fn !in declared ==> nids == nids0
    ensures fn in declared ==>
      (values0 + ProfileValuesOver(done, declared, doc, nids0))[fn := ProfileValue(fn, ProfilesFieldMap[fn], doc, nids)]
      == values0 + ProfileValuesOver(done + {fn}, declared, doc, nids)
    ensures fn !in declared ==>
      values0 + ProfileValuesOver(done, declared, doc, nids0) == values0 + ProfileValuesOver(done + {fn}, declared, doc, nids)
  {
    ProfileValuesOneMore(done, declared, doc, nids, fn);
    assert ProfileValuesOver(done, declared, doc, nids0) == ProfileValuesOver(done, declared, doc, nids);
    if fn in declared {
      MergeUpdate(values0, ProfileValuesOver(done, declared, doc, nids), fn, ProfileValue(fn, ProfilesFieldMap[fn], doc, nids));
    }
  }

  /** The value of one declared profile field; the publications field
      reconciles the publications first. */
  method MapProfileField(fn: string, declared: set<string>, doc: map<string, Val>, nids0: map<Val, nat>, storage: Storage)
    returns (value: Val, nids: map<Val, nat>)
    requires fn in ProfilesFieldMap && fn in declared && storage.Valid()
    requires fn == PublicationsField ==> nids0 == map[]
    modifies storage
    ensures storage.Valid()
    ensures fn != PublicationsField ==> storage.State() == old(storage.State()) && nids == nids0
    ensures fn == PublicationsField ==>
      Progress(storage.State(), nids) == PublicationStage(storage.backend, old(storage.State()), declared, doc)
    ensures value == ProfileValue(fn, ProfilesFieldMap[fn], doc, nids)
  {
    nids := nids0;
    var v := At(doc, ProfilesFieldMap[fn]);
    if fn == PublicationsField {
      var pids := if !Empty(v) then Ids(v) else [];
      if pids != [] {
        nids := SyncPublications(storage, v);
        var refs := PublicationReferences(pids, nids);
        value := List(refs);
      } else {
        value := Null;
      }
    } else if fn == AwardsField {
      value := if !Empty(v) then List(Column(Rows(v), "Summary")) else Null;
    } else if fn == CollabField {
      value := if !Empty(v) then List(Strs(Explode(StringOf(Index(v, "Summary"))))) else Null;
    } else {
      value := if !Empty(v) then v else Null;
    }
  }

  /** Adds the profile values, one table entry at a time, reconciling the
      publications when their field comes up. */
  method MapProfileFields(declared: set<string>, doc: map<string, Val>, values0: map<string, Val>, storage: Storage)
    returns (values: map<string, Val>)
    requires storage.Valid()
    modifies storage
    ensures storage.Valid()
    ensures var q := PublicationStage(storage.backend, old(storage.State()), declared, doc);
      storage.State() == q.store && values == values0 + ProfileValues(declared, doc, q.nids)
  {
    ghost var st := storage.State();
    values := values0;
    var nids: map<Val, nat> := map[];
    ghost var keys := ProfilesFieldMap.Keys;
    var todo := ProfilesFieldMap.Keys;
    ghost var done: set<string> := {};
    NoKeysDone(keys);
    ProfileValuesNone(declared, doc, nids);
    while todo != {}
      invariant done + todo == keys && done !! todo
      invariant storage.Valid()
      invariant PublicationsField in todo ==> storage.State() == st && nids == map[]
      invariant PublicationsField !in todo ==> Progress(storage.State(), nids) == PublicationStage(storage.backend, st, declared, doc)
      invariant values == values0 + ProfileValuesOver(done, declared, doc, nids)
      decreases todo
    {
      var fn :| fn in todo;
      MoveKey(done, todo, keys, fn);
      ghost var nids0 := nids;
      if fn in declared {
        var value;
        value, nids := MapProfileField(fn, declared, doc, nids, storage);
        values := values[fn := value];
      }
      ProfileValuesStep(values0, done, declared, doc, nids0, nids, fn);
      todo := todo - {fn};
      done := done + {fn};
    }
    ProfileValuesAll(declared, doc, nids);
  }

  /** Everything between the e-mail lookup and the node: the sub-lookups,
      the field mapping (with publication reconciliation), redaction and the hook. */
  method PrepareValues(m: Manager, declared: set<string>, eds: Entry, storage: Storage) returns (values: map<string, Val>)
    requires storage.Valid()
    modifies storage
    ensures storage.Valid()
    ensures var p := Prepare(m, storage.backend, declared, old(storage.State()), eds);
      storage.State() == p.pubs.store && values == p.values
  {
    var uid := FirstValue(eds, UidAttribute);
    var campus := if !Empty(uid) then m.SearchAddressByUid(uid.s, CampusAddress) else Failed;
    var practice := if !Empty(uid) then m.SearchAddressByUid(uid.s, PracticeAddress) else Failed;
    var deptNum := FirstValue(eds, DeptAttribute);
    var dept := if !Empty(deptNum) then m.SearchByDept(deptNum.s) else Failed;
    ghost var st := storage.State();
    assert Sources(eds, campus, practice, dept) == SourcesOf(m, eds);
    values := MapEdsFields(declared, Sources(eds, campus, practice, dept));
    var ucid := FirstValue(eds, UcidAttribute);
    var profile := if !Empty(ucid) then m.SearchByUcid(ucid.s) else Failed;
    assert profile == ProfileOf(m, eds);
    ghost var p := Prepare(m, storage.backend, declared, st, eds);
    if profile.Found? {
      values := MapProfileFields(declared, m.profileView(profile.entry), values, storage);
    }
    assert storage.State() == p.pubs.store;
    values := ApplyReleaseCodes(values, m.allowedReleaseCodes);
    assert values == p.hookInput;
    values := m.presave(values);
  }

  /** Sets the values on the node and saves it when it is new or changed. */
  method CommitValues(node: Node, storage: Storage, values: map<string, Val>) returns (updated: bool)
    requires storage.Valid()
    modifies node, storage
    ensures storage.Valid()
    ensures Outcome(updated, node.State(), storage.State()) == Commit(storage.backend, old(node.State()), old(storage.State()), values)
  {
    var saveFlag := node.isNew;
    var stored := Unchanged(node.State(), storage.State());
    saveFlag := ApplyValues(node, values, stored, saveFlag);
    if saveFlag {
      node.Set(RevisionLog, Str(SyncMessage));
      updated := storage.Save(node);
      return;
    }
    return false;
  }

  /** `sync($node)`. */
  method Sync(m: Manager, node: Node, storage: Storage) returns (updated: bool)
    requires storage.Valid() && Ready(node.State(), storage.State())
    modifies node, storage
    ensures storage.Valid()
    ensures Outcome(updated, node.State(), storage.State()) == SyncResult(m, storage.backend, old(node.State()), old(storage.State()))
  {
    if !m.HasLdap() {
      return false;
    }
    var email := node.Label();
    if Empty(email) {
      return false;
    }
    // An address the validator rejects is only reported here; the e-mail
    // search then finds nothing.
    var eds := m.SearchByEmail(StringOf(email));
    if eds.NotFound? {
      return false;
    }
    if eds.Failed? {
      return false;
    }
    var values := PrepareValues(m, node.declared, eds.entry, storage);
    updated := CommitValues(node, storage, values);
  }
}
