/** The LDAP manager's lookups: the service's immutable collaborators and the
    search wrappers, which classify a directory query into the entry found,
    PHP NULL (nothing found, or no directory) or PHP FALSE (the query threw). */
module LdapManager {
  import opened Php

  /** One LDAP entry: attribute name to its values. */
  type Entry = map<string, seq<string>>

  /** What executing a directory query gives: an exception or the result rows. */
  datatype QueryResult = Threw | Results(entries: seq<Entry>)

  /** The three-way result of every lookup: the entry, NULL or FALSE. */
  datatype Lookup = Found(entry: Entry) | NotFound | Failed

  /** `getAttribute($a)[0]` guarded by `hasAttribute($a)`: the first value of
      the attribute as a string, or null. */
  function FirstValue(e: Entry, attribute: string): (v: Val)
    ensures v == Null || v.Str?
    ensures v.Str? <==> attribute in e && |e[attribute]| > 0
    ensures v.Str? ==> v.s == e[attribute][0]
  {
    if attribute in e && |e[attribute]| > 0 then Str(e[attribute][0]) else Null
  }

  /** `$lookup && $lookup->hasAttribute($a) ? $lookup->getAttribute($a)[0] : NULL`:
      NULL and FALSE lookups read as null. */
  function Read(l: Lookup, attribute: string): (v: Val)
    ensures !l.Found? ==> v == Null
    ensures l.Found? ==> v == FirstValue(l.entry, attribute)
  {
    if l.Found? then FirstValue(l.entry, attribute) else Null
  }

  const PeopleBase := "ou=people,dc=ucsf,dc=edu"
  // The base used for the UCSF-ID lookup, exactly as the manager spells it.
  const UcidBase := "ou=people,dc=ucsf,dcedu"
  const DepartmentsBase := "ou=departments,dc=ucsf,dc=edu"
  const CampusAddress := "Campus Address"
  const PracticeAddress := "Private Practice Address"

  function AddressBase(uid: string, addressType: string): string
  {
    "cn=" + addressType + ",uid=" + uid + "," + PeopleBase
  }

  function AddressFilter(addressType: string): string
  {
    "cn=" + addressType
  }

  /** The manager service. Its collaborators are fixed when it is
      constructed: the directory connection (absent when no LDAP server could
      be bound), the e-mail validator, the allowed release codes from the
      module settings, the reading of a profile out of the entry that the
      UCSF-ID lookup returns, and the pre-save hook of other modules. */
  datatype Manager = Manager(
    ldap: Option<(string, string) -> QueryResult>,
    emailIsValid: string -> bool,
    allowedReleaseCodes: set<Val>,
    profileView: Entry -> map<string, Val>,
    presave: map<string, Val> -> map<string, Val>)
  {
    /** Whether LDAP is bound. */
    predicate HasLdap()
    {
      ldap.Some?
    }

    /** A directory search: FALSE only when the query throws, the first
        result when there is one, NULL otherwise (also with no directory). */
    function Search(baseDn: string, filter: string): (r: Lookup)
      ensures !HasLdap() ==> r == NotFound
      ensures r.Failed? <==> HasLdap() && ldap.value(baseDn, filter).Threw?
      ensures r.Found? <==> HasLdap() && ldap.value(baseDn, filter).Results? && ldap.value(baseDn, filter).entries != []
      ensures r.Found? ==> r.entry == ldap.value(baseDn, filter).entries[0]
    {
      if ldap.None? then NotFound
      else match ldap.value(baseDn, filter)
        case Threw => Failed
        case Results(entries) => if |entries| > 0 then Found(entries[0]) else NotFound
    }

    /** Search people by mail; an address the validator rejects is NULL
        without any query. */
    function SearchByEmail(email: string): (r: Lookup)
      ensures !emailIsValid(email) ==> r == NotFound
      ensures emailIsValid(email) ==> r == Search(PeopleBase, "mail=" + email)
    {
      if emailIsValid(email) then Search(PeopleBase, "mail=" + email) else NotFound
    }

    function SearchByUcid(ucid: string): (r: Lookup)
      ensures r == Search(UcidBase, "ucsfEduIDNumber=" + ucid)
    {
      Search(UcidBase, "ucsfEduIDNumber=" + ucid)
    }

    function SearchByDept(deptNum: string): (r: Lookup)
      ensures r == Search(DepartmentsBase, "ou=" + deptNum)
    {
      Search(DepartmentsBase, "ou=" + deptNum)
    }

    function SearchAddressByUid(uid: string, addressType: string): (r: Lookup)
      ensures r == Search(AddressBase(uid, addressType), AddressFilter(addressType))
    {
      Search(AddressBase(uid, addressType), AddressFilter(addressType))
    }
  }

  /** The address filter names its address type: different types give
      different filters, so the campus and private-practice lookups are
      different queries. */
  lemma {:induction false} AddressFilterInjective(t1: string, t2: string)
    requires AddressFilter(t1) == AddressFilter(t2)
    ensures t1 == t2
  {
    assert t1 == AddressFilter(t1)[3..];
    assert t2 == AddressFilter(t2)[3..];
  }

  lemma AddressLookupsAreDistinct()
    ensures AddressFilter(CampusAddress) != AddressFilter(PracticeAddress)
  {
    if AddressFilter(CampusAddress) == AddressFilter(PracticeAddress) {
      AddressFilterInjective(CampusAddress, PracticeAddress);
    }
  }
}
