/** The three constant correspondence tables of the LDAP manager interface
    (node field name to source property) and the field names that the
    synchronisation treats specially. */
module FieldMaps {

  /** Node field to LDAP attribute. */
  const EdsFieldMap: map<string, string> := map[
    "field_ucsfeds_address" := "postalAddress",
    "field_ucsfeds_addressp" := "postalAddress",
    "field_ucsfeds_degrees" := "ucsfEduDegree",
    "field_ucsfeds_displayname" := "displayName",
    "field_ucsfeds_email" := "mail",
    "field_ucsfeds_emailreleasecode" := "ucsfEduMailReleaseCode",
    "field_ucsfeds_entryreleasecode" := "ucsfEduEntryReleaseCode",
    "field_ucsfeds_fax" := "facsimileTelephoneNumber",
    "field_ucsfeds_faxreleasecode" := "ucsfEduFacsimileTelephoneNumberReleaseCode",
    "field_ucsfeds_firstname" := "givenName",
    "field_ucsfeds_lastname" := "sn",
    "field_ucsfeds_middlename" := "initials",
    "field_ucsfeds_payrolltitle" := "title",
    "field_ucsfeds_phone" := "telephoneNumber",
    "field_ucsfeds_phonep" := "telephoneNumber",
    "field_ucsfeds_phonereleasecode" := "ucsfEduTelephoneNumberReleaseCode",
    "field_ucsfeds_phonereleasecodep" := "ucsfEduTelephoneNumberReleaseCode",
    "field_ucsfeds_preferredfirstname" := "ucsfEduPreferredGivenName",
    "field_ucsfeds_preferredpronoun" := "ucsfEduPreferredPronoun",
    "field_ucsfeds_primarydeptorunit" := "ucsfEduDepartmentName",
    "field_ucsfeds_ucid" := "ucsfEduIDNumber",
    "field_ucsfeds_uid" := "uid",
    "field_ucsfeds_workingtitle" := "ucsfEduWorkingTitle"
  ]

  /** Node field to profile document property. */
  const ProfilesFieldMap: map<string, string> := map[
    "field_ucsfeds_prfawardshonors" := "AwardOrHonors",
    "field_ucsfeds_prfcollabinterests" := "CollaborationInterests",
    "field_ucsfeds_prffreetextkw" := "FreetextKeywords",
    "field_ucsfeds_prfkeywords" := "Keywords",
    "field_ucsfeds_prfnarrative" := "Narrative",
    "field_ucsfeds_prfpublications" := "Publications",
    "field_ucsfeds_prfurl" := "ProfilesURL"
  ]

  /** Publication node field to publication item property. */
  const PublicationsFieldMap: map<string, string> := map[
    "title" := "Title",
    "field_ucsfpfpub_authorlist" := "AuthorList",
    "field_ucsfpfpub_date" := "Date",
    "field_ucsfpfpub_pmid" := "PMID",
    "field_ucsfpfpub_publication" := "Publication",
    "field_ucsfpfpub_publicationid" := "PublicationID",
    "field_ucsfpfpub_sourcename" := "PublicationSourceName",
    "field_ucsfpfpub_sourceurl" := "PublicationSourceURL"
  ]

  // Fields read from the campus-address and private-practice-address sub-entries.
  const CampusFields: set<string> := {"field_ucsfeds_address", "field_ucsfeds_phone", "field_ucsfeds_phonereleasecode"}
  const PracticeFields: set<string> := {"field_ucsfeds_addressp", "field_ucsfeds_phonep", "field_ucsfeds_phonereleasecodep"}
  // The field read from the department sub-entry.
  const DeptField := "field_ucsfeds_primarydeptorunit"

  // The four release-code rules (code field, guarded field) and the entry code.
  const EmailField := "field_ucsfeds_email"
  const EmailCode := "field_ucsfeds_emailreleasecode"
  const FaxField := "field_ucsfeds_fax"
  const FaxCode := "field_ucsfeds_faxreleasecode"
  const PhoneField := "field_ucsfeds_phone"
  const PhoneCode := "field_ucsfeds_phonereleasecode"
  const PhonePField := "field_ucsfeds_phonep"
  const PhonePCode := "field_ucsfeds_phonereleasecodep"
  const EntryCode := "field_ucsfeds_entryreleasecode"

  // Profile fields with their own extraction rule.
  const PublicationsField := "field_ucsfeds_prfpublications"
  const AwardsField := "field_ucsfeds_prfawardshonors"
  const CollabField := "field_ucsfeds_prfcollabinterests"

  // Publication item keys and node fields.
  const PublicationIdKey := "PublicationID"
  const PublicationIdField := "field_ucsfpfpub_publicationid"
  const NestedSourceFields: set<string> := {"field_ucsfpfpub_sourcename", "field_ucsfpfpub_sourceurl", "field_ucsfpfpub_pmid"}
  const PublicationBundle := "ucsf_profiles_publication"

  /** The two tables that the entry-level lockdown scans name disjoint
      fields, so each field is nulled by exactly one of the two scans. */
  lemma TablesDisjoint()
    ensures EdsFieldMap.Keys !! ProfilesFieldMap.Keys
  {
  }

  /** Campus and private-practice fields are pairs over the same LDAP
      attribute; only the sub-entry they are read from tells them apart. */
  lemma AddressPairsShareAttributes()
    ensures EdsFieldMap["field_ucsfeds_address"] == EdsFieldMap["field_ucsfeds_addressp"] == "postalAddress"
    ensures EdsFieldMap["field_ucsfeds_phone"] == EdsFieldMap["field_ucsfeds_phonep"] == "telephoneNumber"
    ensures EdsFieldMap["field_ucsfeds_phonereleasecode"] == EdsFieldMap["field_ucsfeds_phonereleasecodep"] == "ucsfEduTelephoneNumberReleaseCode"
    ensures CampusFields + PracticeFields + {DeptField} <= EdsFieldMap.Keys
    ensures CampusFields !! PracticeFields && DeptField !in CampusFields + PracticeFields
  {
  }

  /** Every field the release-code rules read is an EDS field. */
  lemma ReleaseFieldsAreEdsFields()
    ensures {EmailField, EmailCode, FaxField, FaxCode, PhoneField, PhoneCode, PhonePField, PhonePCode, EntryCode} <= EdsFieldMap.Keys
    ensures |{EmailField, FaxField, PhoneField, PhonePField}| == 4
    ensures {EmailField, FaxField, PhoneField, PhonePField} !! {EmailCode, FaxCode, PhoneCode, PhonePCode, EntryCode}
  {
  }

  /** Publications are a profile field read from the `Publications` list, and
      the publication table keys nodes by `PublicationID` and reads three
      fields from the nested publication source. */
  lemma PublicationTables()
    ensures ProfilesFieldMap[PublicationsField] == "Publications"
    ensures AwardsField in ProfilesFieldMap && CollabField in ProfilesFieldMap
    ensures PublicationsFieldMap[PublicationIdField] == PublicationIdKey
    ensures NestedSourceFields <= PublicationsFieldMap.Keys
    ensures PublicationsFieldMap["field_ucsfpfpub_pmid"] == "PMID"
    ensures PublicationsFieldMap["field_ucsfpfpub_sourcename"] == "PublicationSourceName"
    ensures PublicationsFieldMap["field_ucsfpfpub_sourceurl"] == "PublicationSourceURL"
    ensures PublicationIdField !in NestedSourceFields
  {
  }
}
