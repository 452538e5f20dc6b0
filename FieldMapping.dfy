/** Field mapping: how the values the synchronisation prepares for a node
    are read from the primary LDAP entry, its three sub-lookups and the
    profile document. Only fields the node declares get a value; every
    missing input reads as null. */
module FieldMapping {
  import opened Php
  import opened Collections
  import opened FieldMaps
  import opened LdapManager

  /** The primary entry and the lookups made from it: the campus and the
      private-practice address entries and the department entry. */
  datatype Sources = Sources(eds: Entry, campus: Lookup, practice: Lookup, dept: Lookup)

  /** The value of one EDS field: the first value of its attribute in the
      entry its name selects. */
  function EdsValue(fn: string, src: string, s: Sources): Val
  {
    if fn in CampusFields then Read(s.campus, src)
    else if fn in PracticeFields then Read(s.practice, src)
    else if fn == DeptField then Read(s.dept, src)
    else FirstValue(s.eds, src)
  }

  /** The EDS part of the values: one entry per declared EDS field. */
  function EdsValues(declared: set<string>, s: Sources): map<string, Val>
  {
    map fn | fn in EdsFieldMap && fn in declared :: EdsValue(fn, EdsFieldMap[fn], s)
  }

  /** `EdsValue` of a table field, null for any other name. */
  function EdsValueOf(s: Sources): string -> Val
  {
    fn => if fn in EdsFieldMap then EdsValue(fn, EdsFieldMap[fn], s) else Null
  }

  /** The EDS part of the values as a selection over the table's keys. */
  lemma EdsValuesSelect(declared: set<string>, s: Sources)
    ensures EdsValues(declared, s) == Select(EdsFieldMap.Keys, fn => fn in declared, EdsValueOf(s))
  {
  }

  /** Fills the EDS part of the values, one table entry at a time. */
  method MapEdsFields(declared: set<string>, s: Sources) returns (values: map<string, Val>)
    ensures values == EdsValues(declared, s)
  {
    values := map[];
    ghost var keys := EdsFieldMap.Keys;
    var todo := EdsFieldMap.Keys;
    ghost var done: set<string> := {};
    ghost var p := fn => fn in declared;
    assert Select(done, p, EdsValueOf(s)) == map[];
    NoKeysDone(keys);
    while todo != {}
      invariant done + todo == keys && done !! todo
      invariant values == Select(done, p, EdsValueOf(s))
      decreases todo
    {
      var fn :| fn in todo;
      SelectOneMore(done, fn, p, EdsValueOf(s));
      MoveKey(done, todo, keys, fn);
      if fn in declared {
        var src := EdsFieldMap[fn];
        if fn in CampusFields {
          values := values[fn := Read(s.campus, src)];
        } else if fn in PracticeFields {
          values := values[fn := Read(s.practice, src)];
        } else if fn == DeptField {
          values := values[fn := Read(s.dept, src)];
        } else {
          values := values[fn := FirstValue(s.eds, src)];
        }
      }
      todo := todo - {fn};
      done := done + {fn};
    }
    EdsValuesSelect(declared, s);
  }

  /** Where each EDS field comes from: campus fields only from the campus
      address entry, the `p` variants only from the private-practice entry,
      the department field only from the department entry, every other field
      from the primary entry; always the attribute's first value, null when
      the entry or the attribute is missing. */
  lemma EdsFieldSources(declared: set<string>, s: Sources)
    ensures EdsValues(declared, s).Keys == EdsFieldMap.Keys * declared
    ensures forall fn :: fn in CampusFields && fn in declared ==>
      EdsValues(declared, s)[fn] == Read(s.campus, EdsFieldMap[fn])
    ensures forall fn :: fn in PracticeFields && fn in declared ==>
      EdsValues(declared, s)[fn] == Read(s.practice, EdsFieldMap[fn])
    ensures DeptField in declared ==> EdsValues(declared, s)[DeptField] == Read(s.dept, EdsFieldMap[DeptField])
    ensures forall fn :: fn in EdsFieldMap && fn in declared && fn !in CampusFields + PracticeFields + {DeptField} ==>
      EdsValues(declared, s)[fn] == FirstValue(s.eds, EdsFieldMap[fn])
  {
    FieldMaps.AddressPairsShareAttributes();
  }

  /** A private-practice field never depends on the campus entry, nor a
      campus field on the private-practice entry, even when both exist and differ. */
  lemma AddressEntriesAreIsolated(declared: set<string>, s: Sources, other: Lookup)
    ensures forall fn :: fn in PracticeFields && fn in declared ==>
      EdsValues(declared, s.(campus := other))[fn] == EdsValues(declared, s)[fn]
    ensures forall fn :: fn in CampusFields && fn in declared ==>
      EdsValues(declared, s.(practice := other))[fn] == EdsValues(declared, s)[fn]
  {
    FieldMaps.AddressPairsShareAttributes();
  }

  /** `['target_id' => $nid]`. */
  function Ref(nid: nat): Val
  {
    Dict(map["target_id" := Int(nid)])
  }

  /** The publications value: position i refers to the node synchronised for
      the i-th PublicationID, or is null when none was returned. */
  function References(pids: seq<Val>, nids: map<Val, nat>): seq<Val>
  {
    seq(|pids|, i requires 0 <= i < |pids| => if pids[i] in nids then Ref(nids[pids[i]]) else Null)
  }

  /** Builds the reference list position by position. */
  method PublicationReferences(pids: seq<Val>, nids: map<Val, nat>) returns (refs: seq<Val>)
    ensures |refs| == |pids|
    ensures forall i :: 0 <= i < |pids| ==> pids[i] in nids ==> refs[i] == Ref(nids[pids[i]])
    ensures forall i :: 0 <= i < |pids| ==> pids[i] !in nids ==> refs[i] == Null
    ensures refs == References(pids, nids)
  {
    refs := [];
    var index := 0;
    while index < |pids|
      invariant 0 <= index <= |pids|
      invariant refs == References(pids[..index], nids)
    {
      var pid := pids[index];
      refs := refs + [if pid in nids then Ref(nids[pid]) else Null];
      index := index + 1;
    }
    assert pids[..index] == pids;
  }

  function NullCount(vs: seq<Val>): nat
  {
    if vs == [] then 0 else (if vs[0] == Null then 1 else 0) + NullCount(vs[1..])
  }

  function UnresolvedCount(pids: seq<Val>, nids: map<Val, nat>): nat
  {
    if pids == [] then 0 else (if pids[0] in nids then 0 else 1) + UnresolvedCount(pids[1..], nids)
  }

  /** With N ids of which M resolve, the list has length N and exactly N - M nulls. */
  lemma {:induction false} ReferencesNullCount(pids: seq<Val>, nids: map<Val, nat>)
    ensures |References(pids, nids)| == |pids|
    ensures NullCount(References(pids, nids)) == UnresolvedCount(pids, nids)
  {
    if pids != [] {
      ReferencesNullCount(pids[1..], nids);
      assert References(pids, nids)[1..] == References(pids[1..], nids);
    }
  }

  /** The PublicationIDs of a publication list, in list order. */
  function Ids(publications: Val): seq<Val>
  {
    Column(Rows(publications), PublicationIdKey)
  }

  /** The PublicationIDs of a profile's publications; none when it has none. */
  function PublicationIds(doc: map<string, Val>): seq<Val>
  {
    var v := At(doc, ProfilesFieldMap[PublicationsField]);
    if Empty(v) then [] else Ids(v)
  }

  function Strs(pieces: seq<string>): seq<Val>
  {
    seq(|pieces|, i requires 0 <= i < |pieces| => Str(pieces[i]))
  }

  /** The value of one profile field; `nids` is what publication
      reconciliation returned. */
  function ProfileValue(fn: string, src: string, doc: map<string, Val>, nids: map<Val, nat>): Val
  {
    var v := At(doc, src);
    if Empty(v) then Null
    else if fn == PublicationsField then
      var pids := Ids(v);
      if |pids| > 0 then List(References(pids, nids)) else Null
    else if fn == AwardsField then List(Column(Rows(v), "Summary"))
    else if fn == CollabField then List(Strs(Explode(StringOf(Index(v, "Summary")))))
    else v
  }

  /** The profile part of the values: one entry per declared profile field. */
  function ProfileValues(declared: set<string>, doc: map<string, Val>, nids: map<Val, nat>): map<string, Val>
  {
    map fn | fn in ProfilesFieldMap && fn in declared :: ProfileValue(fn, ProfilesFieldMap[fn], doc, nids)
  }

  /** The publications value is null without publication ids, and otherwise a
      list as long as the id list whose position i refers to the node
      synchronised for the i-th id when there is one. */
  lemma PublicationsValue(declared: set<string>, doc: map<string, Val>, nids: map<Val, nat>)
    requires PublicationsField in declared
    ensures PublicationsField in ProfileValues(declared, doc, nids)
    ensures var v := ProfileValues(declared, doc, nids)[PublicationsField];
      var pids := PublicationIds(doc);
      && (pids == [] <==> v == Null)
      && (pids != [] ==> (v.List? && |v.items| == |pids|
            && forall i :: 0 <= i < |pids| ==> v.items[i] == (if pids[i] in nids then Ref(nids[pids[i]]) else Null)))
  {
    FieldMaps.PublicationTables();
  }

  /** Only the publications field depends on what reconciliation returned. */
  lemma OtherProfileFieldsIgnoreReconciliation(declared: set<string>, doc: map<string, Val>, nids: map<Val, nat>, nids': map<Val, nat>)
    ensures forall fn :: fn in ProfileValues(declared, doc, nids) && fn != PublicationsField ==>
      fn in ProfileValues(declared, doc, nids') && ProfileValues(declared, doc, nids)[fn] == ProfileValues(declared, doc, nids')[fn]
  {
  }

  /** Awards are the `Summary` column of the awards list; collaboration
      interests are the pieces of the `Summary` text, which join back to it;
      both are null when the property is empty. */
  lemma AwardsAndInterests(declared: set<string>, doc: map<string, Val>, nids: map<Val, nat>)
    requires AwardsField in declared && CollabField in declared
    ensures var awards := At(doc, ProfilesFieldMap[AwardsField]);
      ProfileValues(declared, doc, nids)[AwardsField] == if Empty(awards) then Null else List(Column(Rows(awards), "Summary"))
    ensures var interests := At(doc, ProfilesFieldMap[CollabField]);
      var v := ProfileValues(declared, doc, nids)[CollabField];
      && (Empty(interests) <==> v == Null)
      && (!Empty(interests) ==> (v.List? && |v.items| >= 1
            && (forall i :: 0 <= i < |v.items| ==> v.items[i].Str? && !ContainsSeparator(v.items[i].s))
            && Implode(seq(|v.items|, i requires 0 <= i < |v.items| => v.items[i].s)) == StringOf(Index(interests, "Summary"))))
  {
    FieldMaps.PublicationTables();
    var interests := At(doc, ProfilesFieldMap[CollabField]);
    if !Empty(interests) {
      var summary := StringOf(Index(interests, "Summary"));
      var pieces := Explode(summary);
      var v := ProfileValues(declared, doc, nids)[CollabField];
      assert v == List(Strs(pieces));
      ImplodeExplode(summary);
      ExplodePiecesAreSeparatorFree(summary);
      assert seq(|v.items|, i requires 0 <= i < |v.items| => v.items[i].s) == pieces;
    }
  }
}
