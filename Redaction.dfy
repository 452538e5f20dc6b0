/** Release-code redaction of the values: four independent per-field rules
    (e-mail, fax, campus phone, private-practice phone), then an entry-level
    lockdown that nulls every set field of both correspondence tables when
    the entry release code is not allowed. */
module Redaction {
  import opened Php
  import opened FieldMaps

  /** One per-field rule: when both the field and its release code are set
      and the code is not allowed, the field becomes null. */
  function ApplyRule(values: map<string, Val>, code: string, field: string, allowed: set<Val>): map<string, Val>
  {
    if Isset(values, code) && Isset(values, field) && values[code] !in allowed
    then values[field := Null]
    else values
  }

  /** The four per-field rules, in the order the code applies them. */
  function FieldRules(values: map<string, Val>, allowed: set<Val>): map<string, Val>
  {
    var v1 := ApplyRule(values, EmailCode, EmailField, allowed);
    var v2 := ApplyRule(v1, FaxCode, FaxField, allowed);
    var v3 := ApplyRule(v2, PhoneCode, PhoneField, allowed);
    ApplyRule(v3, PhonePCode, PhonePField, allowed)
  }

  /** The entry release code is set and not allowed. */
  predicate EntryLocked(values: map<string, Val>, allowed: set<Val>)
  {
    Isset(values, EntryCode) && values[EntryCode] !in allowed
  }

  /** Every set value under one of `keys` becomes null; unset ones stay as they are. */
  function Lockdown(keys: set<string>, values: map<string, Val>): map<string, Val>
  {
    map k | k in values :: if k in keys && Isset(values, k) then Null else values[k]
  }

  /** The values after redaction. */
  function Redacted(values: map<string, Val>, allowed: set<Val>): map<string, Val>
  {
    var v := FieldRules(values, allowed);
    if EntryLocked(v, allowed) then Lockdown(ProfilesFieldMap.Keys, Lockdown(EdsFieldMap.Keys, v)) else v
  }

  /** Redacts the values: the four rules, then the two lockdown scans. */
  method ApplyReleaseCodes(values: map<string, Val>, allowed: set<Val>) returns (r: map<string, Val>)
    ensures r == Redacted(values, allowed)
  {
    r := ApplyFieldRule(values, EmailCode, EmailField, allowed);
    r := ApplyFieldRule(r, FaxCode, FaxField, allowed);
    r := ApplyFieldRule(r, PhoneCode, PhoneField, allowed);
    r := ApplyFieldRule(r, PhonePCode, PhonePField, allowed);
    assert r == FieldRules(values, allowed);
    if Isset(r, EntryCode) {
      if r[EntryCode] !in allowed {
        r := NullSetFields(EdsFieldMap.Keys, r);
        r := NullSetFields(ProfilesFieldMap.Keys, r);
      }
    }
  }

  /** One per-field rule, in place. */
  method ApplyFieldRule(values: map<string, Val>, code: string, field: string, allowed: set<Val>) returns (r: map<string, Val>)
    ensures r == ApplyRule(values, code, field, allowed)
  {
    r := values;
    if Isset(r, code) && Isset(r, field) {
      if r[code] !in allowed {
        r := r[field := Null];
      }
    }
  }

  /** One lockdown scan: every set value under a key of the table becomes null. */
  method NullSetFields(keys: set<string>, values: map<string, Val>) returns (r: map<string, Val>)
    ensures r == Lockdown(keys, values)
  {
    r := values;
    var todo := keys;
    while todo != {}
      invariant todo <= keys
      invariant r == Lockdown(keys - todo, values)
      decreases todo
    {
      var fn :| fn in todo;
      if Isset(r, fn) {
        r := r[fn := Null];
      }
      todo := todo - {fn};
    }
  }

  /** A rule never touches another key: afterwards its field is still set iff
      it was set and its code is unset or allowed, with the same value. */
  lemma RuleKeepsFieldIff(values: map<string, Val>, code: string, field: string, allowed: set<Val>)
    requires code != field
    ensures var r := ApplyRule(values, code, field, allowed);
      && r.Keys == values.Keys
      && (forall k :: k in values && k != field ==> r[k] == values[k])
      && (Isset(r, field) <==> Isset(values, field) && !(Isset(values, code) && values[code] !in allowed))
      && (Isset(r, field) ==> r[field] == values[field])
  {
  }

  /** Two rules that guard different fields, neither of which is the
      other's code, can be applied in either order. */
  lemma RulesCommute(values: map<string, Val>, c1: string, f1: string, c2: string, f2: string, allowed: set<Val>)
    requires f1 != f2 && c1 != f2 && c2 != f1
    ensures ApplyRule(ApplyRule(values, c1, f1, allowed), c2, f2, allowed)
         == ApplyRule(ApplyRule(values, c2, f2, allowed), c1, f1, allowed)
  {
  }

  /** A rule leaves every other key as it was. */
  lemma RuleLeavesOtherKeys(values: map<string, Val>, code: string, field: string, allowed: set<Val>, k: string)
    requires k != field
    ensures At(ApplyRule(values, code, field, allowed), k) == At(values, k)
    ensures k in ApplyRule(values, code, field, allowed) <==> k in values
  {
  }

  /** What a rule does to its field depends only on the field and its code. */
  lemma RuleReadsOnlyItsKeys(v: map<string, Val>, w: map<string, Val>, code: string, field: string, allowed: set<Val>)
    requires At(v, code) == At(w, code) && At(v, field) == At(w, field)
    ensures At(ApplyRule(v, code, field, allowed), field) == At(ApplyRule(w, code, field, allowed), field)
  {
  }

  /** The four rules are independent: each guarded field ends as its own rule
      alone would leave it, and the codes and every other key are untouched. */
  lemma {:induction false} FieldRulesAreIndependent(values: map<string, Val>, allowed: set<Val>)
    ensures var r := FieldRules(values, allowed);
      && r.Keys == values.Keys
      && (forall k :: k !in {EmailField, FaxField, PhoneField, PhonePField} ==> At(r, k) == At(values, k))
      && At(r, EmailField) == At(ApplyRule(values, EmailCode, EmailField, allowed), EmailField)
      && At(r, FaxField) == At(ApplyRule(values, FaxCode, FaxField, allowed), FaxField)
      && At(r, PhoneField) == At(ApplyRule(values, PhoneCode, PhoneField, allowed), PhoneField)
      && At(r, PhonePField) == At(ApplyRule(values, PhonePCode, PhonePField, allowed), PhonePField)
  {
    RuleKeysDistinct();
    var v1 := ApplyRule(values, EmailCode, EmailField, allowed);
    var v2 := ApplyRule(v1, FaxCode, FaxField, allowed);
    var v3 := ApplyRule(v2, PhoneCode, PhoneField, allowed);
    var v4 := ApplyRule(v3, PhonePCode, PhonePField, allowed);
    assert v4 == FieldRules(values, allowed);
    assert v4.Keys == values.Keys;
    forall k | k !in {EmailField, FaxField, PhoneField, PhonePField} ensures At(v4, k) == At(values, k) {
      RuleLeavesOtherKeys(values, EmailCode, EmailField, allowed, k);
      RuleLeavesOtherKeys(v1, FaxCode, FaxField, allowed, k);
      RuleLeavesOtherKeys(v2, PhoneCode, PhoneField, allowed, k);
      RuleLeavesOtherKeys(v3, PhonePCode, PhonePField, allowed, k);
    }
    // e-mail: untouched by the three later rules
    RuleLeavesOtherKeys(v1, FaxCode, FaxField, allowed, EmailField);
    RuleLeavesOtherKeys(v2, PhoneCode, PhoneField, allowed, EmailField);
    RuleLeavesOtherKeys(v3, PhonePCode, PhonePField, allowed, EmailField);
    // fax: reads what the e-mail rule left alone, untouched afterwards
    RuleLeavesOtherKeys(values, EmailCode, EmailField, allowed, FaxCode);
    RuleLeavesOtherKeys(values, EmailCode, EmailField, allowed, FaxField);
    RuleReadsOnlyItsKeys(v1, values, FaxCode, FaxField, allowed);
    RuleLeavesOtherKeys(v2, PhoneCode, PhoneField, allowed, FaxField);
    RuleLeavesOtherKeys(v3, PhonePCode, PhonePField, allowed, FaxField);
    // campus phone
    RuleLeavesOtherKeys(values, EmailCode, EmailField, allowed, PhoneCode);
    RuleLeavesOtherKeys(values, EmailCode, EmailField, allowed, PhoneField);
    RuleLeavesOtherKeys(v1, FaxCode, FaxField, allowed, PhoneCode);
    RuleLeavesOtherKeys(v1, FaxCode, FaxField, allowed, PhoneField);
    RuleReadsOnlyItsKeys(v2, values, PhoneCode, PhoneField, allowed);
    RuleLeavesOtherKeys(v3, PhonePCode, PhonePField, allowed, PhoneField);
    // private-practice phone
    RuleLeavesOtherKeys(values, EmailCode, EmailField, allowed, PhonePCode);
    RuleLeavesOtherKeys(values, EmailCode, EmailField, allowed, PhonePField);
    RuleLeavesOtherKeys(v1, FaxCode, FaxField, allowed, PhonePCode);
    RuleLeavesOtherKeys(v1, FaxCode, FaxField, allowed, PhonePField);
    RuleLeavesOtherKeys(v2, PhoneCode, PhoneField, allowed, PhonePCode);
    RuleLeavesOtherKeys(v2, PhoneCode, PhoneField, allowed, PhonePField);
    RuleReadsOnlyItsKeys(v3, values, PhonePCode, PhonePField, allowed);
  }

  lemma RuleKeysDistinct()
    ensures EmailField != FaxField && EmailField != PhoneField && EmailField != PhonePField
    ensures FaxField != PhoneField && FaxField != PhonePField && PhoneField != PhonePField
    ensures EmailCode !in {EmailField, FaxField, PhoneField, PhonePField}
    ensures FaxCode !in {EmailField, FaxField, PhoneField, PhonePField}
    ensures PhoneCode !in {EmailField, FaxField, PhoneField, PhonePField}
    ensures PhonePCode !in {EmailField, FaxField, PhoneField, PhonePField}
    ensures EntryCode !in {EmailField, FaxField, PhoneField, PhonePField}
  {
    FieldMaps.ReleaseFieldsAreEdsFields();
  }

  /** The per-field rules never change whether the entry is locked. */
  lemma FieldRulesKeepEntryCode(values: map<string, Val>, allowed: set<Val>)
    ensures EntryLocked(FieldRules(values, allowed), allowed) <==> EntryLocked(values, allowed)
  {
    FieldRulesAreIndependent(values, allowed);
    RuleKeysDistinct();
    assert At(FieldRules(values, allowed), EntryCode) == At(values, EntryCode);
  }

  /** A lockdown scan keeps the keys, leaves no key of its table set and
      leaves every other key as it was. */
  lemma LockdownClears(keys: set<string>, values: map<string, Val>)
    ensures var r := Lockdown(keys, values);
      && r.Keys == values.Keys
      && (forall k :: k in keys ==> !Isset(r, k))
      && (forall k :: k !in keys ==> At(r, k) == At(values, k))
  {
  }

  /** Entry-level lockdown: when the entry release code is set and not
      allowed, no field of either table is set afterwards (the entry code
      included), whatever the per-field rules decided; fields outside the
      tables keep their values. */
  lemma {:induction false} EntryLockdownSupersedes(values: map<string, Val>, allowed: set<Val>)
    requires EntryLocked(values, allowed)
    ensures var r := Redacted(values, allowed);
      && r.Keys == values.Keys
      && (forall k :: k in EdsFieldMap || k in ProfilesFieldMap ==> !Isset(r, k))
      && (forall k :: k in values && k !in EdsFieldMap && k !in ProfilesFieldMap ==> r[k] == values[k])
  {
    var v := FieldRules(values, allowed);
    FieldRulesKeepEntryCode(values, allowed);
    var l1 := Lockdown(EdsFieldMap.Keys, v);
    var r := Lockdown(ProfilesFieldMap.Keys, l1);
    assert Redacted(values, allowed) == r;
    LockdownClears(EdsFieldMap.Keys, v);
    LockdownClears(ProfilesFieldMap.Keys, l1);
    RedactionOnlyNulls(values, allowed);
    forall k | k in values && k !in EdsFieldMap && k !in ProfilesFieldMap
      ensures r[k] == values[k]
    {
      FieldRulesOutsideTable(values, allowed, k);
    }
  }

  /** The per-field rules leave every key outside the EDS table as it was. */
  lemma FieldRulesOutsideTable(values: map<string, Val>, allowed: set<Val>, k: string)
    requires k !in EdsFieldMap
    ensures At(FieldRules(values, allowed), k) == At(values, k)
  {
    FieldRulesAreIndependent(values, allowed);
    FieldMaps.ReleaseFieldsAreEdsFields();
  }

  /** Without a lockdown, redaction is exactly the four per-field rules. */
  lemma NoLockdownOnlyFieldRules(values: map<string, Val>, allowed: set<Val>)
    requires !EntryLocked(values, allowed)
    ensures Redacted(values, allowed) == FieldRules(values, allowed)
  {
    FieldRulesKeepEntryCode(values, allowed);
  }

  /** `after` has the keys of `before`, each with its value or null. */
  predicate OnlyNulled(before: map<string, Val>, after: map<string, Val>)
  {
    after.Keys == before.Keys && forall k :: k in before ==> after[k] == before[k] || after[k] == Null
  }

  lemma RuleOnlyNulls(values: map<string, Val>, code: string, field: string, allowed: set<Val>)
    ensures OnlyNulled(values, ApplyRule(values, code, field, allowed))
  {
  }

  lemma LockdownOnlyNulls(keys: set<string>, values: map<string, Val>)
    ensures OnlyNulled(values, Lockdown(keys, values))
  {
  }

  lemma OnlyNulledTrans(a: map<string, Val>, b: map<string, Val>, c: map<string, Val>)
    requires OnlyNulled(a, b) && OnlyNulled(b, c)
    ensures OnlyNulled(a, c)
  {
  }

  /** Redaction only removes data: it keeps the keys and leaves every value
      as it was or null. */
  lemma {:induction false} RedactionOnlyNulls(values: map<string, Val>, allowed: set<Val>)
    ensures var r := Redacted(values, allowed);
      && r.Keys == values.Keys
      && forall k :: k in values ==> r[k] == values[k] || r[k] == Null
  {
    var v1 := ApplyRule(values, EmailCode, EmailField, allowed);
    var v2 := ApplyRule(v1, FaxCode, FaxField, allowed);
    var v3 := ApplyRule(v2, PhoneCode, PhoneField, allowed);
    var v4 := ApplyRule(v3, PhonePCode, PhonePField, allowed);
    RuleOnlyNulls(values, EmailCode, EmailField, allowed);
    RuleOnlyNulls(v1, FaxCode, FaxField, allowed);
    RuleOnlyNulls(v2, PhoneCode, PhoneField, allowed);
    RuleOnlyNulls(v3, PhonePCode, PhonePField, allowed);
    OnlyNulledTrans(values, v1, v2);
    OnlyNulledTrans(values, v2, v3);
    OnlyNulledTrans(values, v3, v4);
    assert v4 == FieldRules(values, allowed);
    if EntryLocked(v4, allowed) {
      var l1 := Lockdown(EdsFieldMap.Keys, v4);
      LockdownOnlyNulls(EdsFieldMap.Keys, v4);
      LockdownOnlyNulls(ProfilesFieldMap.Keys, l1);
      OnlyNulledTrans(values, v4, l1);
      OnlyNulledTrans(values, l1, Lockdown(ProfilesFieldMap.Keys, l1));
    }
  }
}
