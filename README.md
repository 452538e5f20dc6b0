# UCSF EDS Profiles node synchronisation, modelled in Dafny

This project models the node synchronisation of the Drupal module
`ucsf_eds_profiles`. The LDAP manager's `sync($node)` works in five steps:

1. It looks the node's person up in the UCSF Enterprise Directory (EDS) by
   the e-mail held in the node's title.
2. It reads the campus-address, private-practice-address and department
   sub-entries, and fills a `values` array through `EDS_FIELD_MAP`.
3. It looks up the person's profile and adds values through
   `PROFILES_FIELD_MAP`. When that loop reaches the publications field, it
   first reconciles the person's publications into publication nodes, whose
   fields follow `PUBLICATIONS_FIELD_MAP`, and the value then refers to
   those nodes.
4. It applies the release-code redaction and the pre-save hook.
5. It sets the values on the node and saves the node when the node is new
   or some value differs from its stored revision.

The model also covers:

- the search wrappers (`search`, `searchByEmail`, `searchByUcid`,
  `searchByDept`, `searchAddressByUid`);
- the three tables (`EDS_FIELD_MAP`, `PROFILES_FIELD_MAP`,
  `PUBLICATIONS_FIELD_MAP`).

Modules, in dependency order:

| module | file | what it holds |
|---|---|---|
| `Collections` | Collections.dfy | Facts about sets, maps and sequences that the loop proofs use. |
| `Php` | Php.dfy | PHP values (`Val`), `isset`, `empty`, `array_column`, `explode(', ')`. |
| `FieldMaps` | FieldMaps.dfy | The three tables, exactly as written. It also names the fields the code treats specially. |
| `LdapManager` | LdapManager.dfy | LDAP entries and the three-way lookup result (entry, NULL, FALSE). It also holds the manager's collaborators and the search wrappers. |
| `Entities` | Entities.dfy | Nodes and node storage. A `Node` class is changed in place by `Set`. A `Storage` class keeps the last stored revision of every node; its `Save` may be refused. The PublicationID query is read off the stored revisions. |
| `FieldMapping` | FieldMapping.dfy | How each field's value is read from the entries and the profile. |
| `Redaction` | Redaction.dfy | The four release-code rules and the entry-level lockdown. |
| `Publications` | Publications.dfy | `syncPublications`. |
| `NodeSync` | NodeSync.dfy | `sync`. |

The code's loops are methods, each proved against a function:

- the loops over `EDS_FIELD_MAP`, `PROFILES_FIELD_MAP` and
  `PUBLICATIONS_FIELD_MAP`;
- the two lockdown scans;
- the loop over the PublicationIDs;
- the save-flag loop over the values.

For example, `Publications.SyncPublications` changes the `Storage` object
and returns what `Publications.Reconciled` computes. `NodeSync.Sync`
changes the node and the storage exactly as `NodeSync.SyncResult` says. The
properties of the pipeline are proved as lemmas about those functions.

The tables are Dafny maps, so a loop over one visits its keys in no fixed
order. Every result of such a loop is independent of the order, because the
loops write distinct keys. The loop over the PublicationIDs keeps list
order, since there order matters.

## Behaviour the model makes explicit

- **No LDAP.** Without a directory connection, `search` returns NULL rather
  than a distinct "unavailable" result. `sync` returns false and changes
  nothing (`NodeSync.SyncResult`).
- **Invalid e-mail.** An e-mail the validator rejects is only logged by
  `sync`. It then fails through `searchByEmail` returning NULL.
- **Falsy sub-lookup keys.** A uid, department number or UCSF ID that is
  missing or falsy (`""`, `"0"`) makes the lookup that needs it FALSE.
  - Every EDS field read from a FALSE address or department lookup is set
    to null.
  - A FALSE profile lookup skips the whole `PROFILES_FIELD_MAP` loop. The
    profile fields are then left out of the values, so the node keeps their
    stored values (`NodeSync.GatheredKeys`).
- **Misaligned publication rows.** Publication reconciliation pairs the
  i-th PublicationID with the i-th item of the publication list, where the
  IDs come from `array_column`. `array_column` skips items without a
  `PublicationID`. When such an item exists, later IDs are compared with,
  and copied from, the wrong item.
  - `Publications.MisalignedRow` exhibits this on a two-item list.
  - `Publications.RowsAligned` proves the pairing is right when every item
    has an ID.
  - The model keeps the code's pairing.
  - The pairing never settles (`Publications.MisalignedRowNeverSettles`).
    Take a store that accepts every save, with no node carrying `P2`, and
    a list whose first item lacks a PublicationID. Each pass creates a new
    node for `P2` and diffs it against the first item. So the node is
    stored without the PublicationID, and the next pass cannot find it
    and creates yet another node.
- **Revision message set by the hook.** Only declared fields are compared
  with the stored revision. So a `revision_log` value from the hook matters
  only when the node declares `revision_log`. If that value differs from
  the synchronisation message, the node is saved again on every
  synchronisation (`NodeSync.HookRevisionLogResaves`). Otherwise a second
  synchronisation with the same values saves nothing
  (`NodeSync.CommitSettles`).
- **The profile.** It comes from the manager's own `searchByUcid`, an LDAP
  entry, which the code then indexes like the profile document. The model
  keeps this: the document is read from the entry found, through the
  manager's `profileView` collaborator.

## Model

| member | source | states |
|---|---|---|
| Php.Column | src/UcsfEdsProfilesLdapManager.php:224 | `array_column` yields at most one value per row. |
| Php.ColumnAligned | src/UcsfEdsProfilesLdapManager.php:348 | When every row has the key, the column has one entry per row and entry j is row j's value. |
| Php.ColumnFromRows | src/UcsfEdsProfilesLdapManager.php:224 | Every entry of a column is the key's value in some row. |
| Php.Explode | src/UcsfEdsProfilesLdapManager.php:241 | `explode(', ', s)` always yields at least one piece. |
| Php.ImplodeExplode | src/UcsfEdsProfilesLdapManager.php:241 | Joining the pieces of `explode(', ', s)` with `', '` gives back `s`. |
| Php.ExplodeFirstIsPrefix | src/UcsfEdsProfilesLdapManager.php:241 | The first piece is a prefix of the text. |
| Php.ExplodePiecesAreSeparatorFree | src/UcsfEdsProfilesLdapManager.php:241 | No piece contains the separator `', '`. |
| FieldMaps.TablesDisjoint | src/UcsfEdsProfilesLdapManagerInterface.php:16-53 | The EDS and profile tables have disjoint keys, so each field is nulled by exactly one lockdown scan. |
| FieldMaps.AddressPairsShareAttributes | src/UcsfEdsProfilesLdapManagerInterface.php:17-33 | Campus and private-practice fields map pairwise to the same attribute. All of them, and the department field, are EDS fields. |
| FieldMaps.ReleaseFieldsAreEdsFields | src/UcsfEdsProfilesLdapManagerInterface.php:21-33 | Every field the redaction reads is an EDS field. The four guarded fields are distinct and none is a release code. |
| FieldMaps.PublicationTables | src/UcsfEdsProfilesLdapManagerInterface.php:45-67 | Publications come from `Publications`. The publication table keys nodes by `PublicationID`. `pmid`, `sourcename` and `sourceurl` are its nested-source fields. |
| LdapManager.FirstValue | src/UcsfEdsProfilesLdapManager.php:210 | An attribute reads as its first value when it has one, and as null otherwise. |
| LdapManager.Read | src/UcsfEdsProfilesLdapManager.php:199-207 | A NULL or FALSE lookup reads as null. A found entry reads as its first value. |
| LdapManager.Manager.Search | src/UcsfEdsProfilesLdapManager.php:109-122 | NULL without a directory. FALSE exactly when the query throws. The first result exactly when there is one. |
| LdapManager.Manager.SearchByEmail | src/UcsfEdsProfilesLdapManager.php:127-132 | An invalid address is NULL without a query. A valid one searches people by `mail=`. |
| LdapManager.Manager.SearchByUcid | src/UcsfEdsProfilesLdapManager.php:137-139 | Searches by `ucsfEduIDNumber=` under the base DN as the code spells it. |
| LdapManager.Manager.SearchByDept | src/UcsfEdsProfilesLdapManager.php:144-146 | Searches departments by `ou=`. |
| LdapManager.Manager.SearchAddressByUid | src/UcsfEdsProfilesLdapManager.php:151-153 | Searches the address entry named by type under the person's uid. |
| LdapManager.AddressFilterInjective | src/UcsfEdsProfilesLdapManager.php:152 | Different address types give different filters. |
| LdapManager.AddressLookupsAreDistinct | src/UcsfEdsProfilesLdapManager.php:183-184 | The campus and private-practice lookups are different queries. |
| Entities.SaveOutcome | src/UcsfEdsProfilesLdapManager.php:321 | A save that goes through stores the node under its id, or under an id no stored node had. The node is then no longer new. A refused save changes nothing. The storage stays valid. |
| Entities.Indexed | src/UcsfEdsProfilesLdapManager.php:352-356 | The field-table lookup of a PublicationID finds a stored node that carries it, the greatest such id, and finds nothing exactly when no stored node carries it. |
| Entities.LastCarrier | src/UcsfEdsProfilesLdapManager.php:352-356 | Among the ids below a bound, the lookup gives the last node that carries the PublicationID, or none when no such node does. |
| Entities.SaveReindexes | src/UcsfEdsProfilesLdapManager.php:321 | After a save that goes through, the query finds the saved node under the PublicationID it was saved with, unless a greater id also carries it. It never finds the node under any other PublicationID. A PublicationID that found another node still finds a node, never one with a smaller id, and the same node unless the saved node also carries it. |
| Entities.Node.Set | src/UcsfEdsProfilesLdapManager.php:308 | Setting a field changes that field and nothing else. |
| Entities.Storage.Load | src/UcsfEdsProfilesLdapManager.php:361 | Loading gives a fresh node holding the stored revision, not new. |
| Entities.Storage.Create | src/UcsfEdsProfilesLdapManager.php:361 | Creating gives a fresh new node of the bundle, without an id. |
| Entities.Storage.Save | src/UcsfEdsProfilesLdapManager.php:321 | Changes the storage and the node exactly as `SaveOutcome` says, and keeps the storage valid. |
| FieldMapping.MapEdsFields | src/UcsfEdsProfilesLdapManager.php:193-213 | The loop over `EDS_FIELD_MAP` computes exactly `EdsValues`. |
| FieldMapping.EdsFieldSources | src/UcsfEdsProfilesLdapManager.php:193-213 | Campus fields come only from the campus entry, private-practice fields only from the private-practice entry, and the department field only from the department entry. Every other field comes from the primary entry. The value is always the first value of the attribute, or null. Exactly the declared EDS fields get a value. |
| FieldMapping.AddressEntriesAreIsolated | src/UcsfEdsProfilesLdapManager.php:196-205 | Private-practice fields do not depend on the campus entry, and campus fields do not depend on the private-practice entry. |
| FieldMapping.PublicationReferences | src/UcsfEdsProfilesLdapManager.php:229-231 | The reference list has one position per PublicationID. Position i refers to the i-th ID's node, or is null when no node was returned. |
| FieldMapping.ReferencesNullCount | src/UcsfEdsProfilesLdapManager.php:229-231 | The list has exactly as many nulls as there are IDs without a node. |
| FieldMapping.PublicationsValue | src/UcsfEdsProfilesLdapManager.php:222-236 | The publications value is null exactly when there is no PublicationID. Otherwise it is a list as long as the ID list, and position i refers to the i-th ID's node or is null. |
| FieldMapping.OtherProfileFieldsIgnoreReconciliation | src/UcsfEdsProfilesLdapManager.php:219-247 | Only the publications value depends on what reconciliation returned. |
| FieldMapping.AwardsAndInterests | src/UcsfEdsProfilesLdapManager.php:237-242 | Awards are the `Summary` column. Interests are the `', '`-pieces of `Summary`, which join back to it. Each is null when its source is empty. |
| Redaction.ApplyReleaseCodes | src/UcsfEdsProfilesLdapManager.php:254-287 | The four rules and the lockdown compute exactly `Redacted`. |
| Redaction.ApplyFieldRule | src/UcsfEdsProfilesLdapManager.php:254-258 | One rule block computes `ApplyRule`: the field becomes null when both it and its code are set and the code is not allowed. |
| Redaction.NullSetFields | src/UcsfEdsProfilesLdapManager.php:276-285 | One lockdown scan nulls exactly the set values under the table's keys. |
| Redaction.LockdownClears | src/UcsfEdsProfilesLdapManager.php:276-285 | A scan keeps the keys, leaves no key of its table set, and leaves every other key as it was. |
| Redaction.RuleKeepsFieldIff | src/UcsfEdsProfilesLdapManager.php:254-273 | After a rule, its field is still set if and only if it was set and its code is unset or allowed. The field's value is unchanged when it stays set. No other key is touched. |
| Redaction.RulesCommute | src/UcsfEdsProfilesLdapManager.php:254-273 | Two rules on different fields, neither of which is the other's code, can be applied in either order. |
| Redaction.RuleLeavesOtherKeys | src/UcsfEdsProfilesLdapManager.php:254-273 | A rule changes no key but its own field. |
| Redaction.RuleReadsOnlyItsKeys | src/UcsfEdsProfilesLdapManager.php:254-273 | A rule's effect depends only on its field and its code. |
| Redaction.FieldRulesAreIndependent | src/UcsfEdsProfilesLdapManager.php:254-273 | Each guarded field ends as its own rule alone would leave it. No other key changes. |
| Redaction.RuleKeysDistinct | src/UcsfEdsProfilesLdapManagerInterface.php:21-33 | The guarded fields are pairwise distinct. No release code, the entry code included, is a guarded field. |
| Redaction.FieldRulesKeepEntryCode | src/UcsfEdsProfilesLdapManager.php:254-275 | The per-field rules never change whether the entry is locked. |
| Redaction.EntryLockdownSupersedes | src/UcsfEdsProfilesLdapManager.php:274-287 | When the entry code is set and not allowed, no field of either table is set afterwards, whatever the rules decided. The entry code itself is included. Other keys keep their values. |
| Redaction.NoLockdownOnlyFieldRules | src/UcsfEdsProfilesLdapManager.php:274-287 | Without a lockdown, redaction is exactly the four rules. |
| Redaction.RedactionOnlyNulls | src/UcsfEdsProfilesLdapManager.php:254-287 | Redaction keeps the keys. Each value stays as it was or becomes null. |
| Publications.UpdateFromRow | src/UcsfEdsProfilesLdapManager.php:364-381 | Each declared mapped field that differs from the item takes the item's value. The three source fields are read from `PublicationSource[0]`. `changed` is true if and only if some field differed. |
| Publications.DiffField | src/UcsfEdsProfilesLdapManager.php:365-381 | One mapped field takes the item's value exactly when the node declares it and its value differs from the item's. `wasStale` says whether it did. Nothing else changes. |
| Publications.PatchedAt | src/UcsfEdsProfilesLdapManager.php:364-381 | After the fields in a set are diffed, a field holds the item's value exactly when it is in the set and was stale. Every other field keeps the node's value. |
| Publications.DiffedMatchesItem | src/UcsfEdsProfilesLdapManager.php:364-381 | After the diff, every declared mapped field holds the item's value. Every other field keeps the node's value. |
| Publications.InitialIds | src/UcsfEdsProfilesLdapManager.php:352-356 | The query keys each listed PublicationID that a stored node carries to such a node, the greatest id among them. It leaves out exactly the listed IDs no stored node carries. |
| Publications.IndexQuery | src/UcsfEdsProfilesLdapManager.php:352-356 | The select succeeds exactly when the column it keys by is a column of the field table. |
| Publications.QueryAsWrittenThrows | src/UcsfEdsProfilesLdapManager.php:354 | The column the code selects is not a column of the field table, so the query fails for every list of IDs. |
| Publications.QueryAsIntended | src/UcsfEdsProfilesLdapManager.php:352-356 | Keyed by the column its condition reads, the query gives `InitialIds`. |
| Publications.Fetch | src/UcsfEdsProfilesLdapManager.php:361 | The node for an indexed PublicationID is its stored revision. For any other ID it is a new publication node. |
| Publications.SaveLogged | src/UcsfEdsProfilesLdapManager.php:384-393 | With the save flag, the node gets the revision message and is saved as `SaveOutcome` says. Without it, nothing changes. |
| Publications.ReconcileOne | src/UcsfEdsProfilesLdapManager.php:359-398 | One iteration changes the storage and the id map exactly as `Step` says. |
| Publications.Step | src/UcsfEdsProfilesLdapManager.php:359-399 | One iteration keeps every known id pointing at a stored node. |
| Publications.StepsFrom | src/UcsfEdsProfilesLdapManager.php:359-399 | The rest of the loop keeps every known id pointing at a stored node. |
| Publications.Reconciled | src/UcsfEdsProfilesLdapManager.php:346-402 | The whole reconciliation keeps every returned id pointing at a stored node. |
| Publications.SyncPublications | src/UcsfEdsProfilesLdapManager.php:346-402 | The loop changes the storage and returns the map exactly as `Reconciled` says. |
| Publications.StepIds | src/UcsfEdsProfilesLdapManager.php:361-398 | A known ID keeps its node id. An unknown ID always creates and saves a new node. It is recorded, under a fresh id, exactly when that save goes through. A failed create changes nothing. |
| Publications.CurrentNodeNotSaved | src/UcsfEdsProfilesLdapManager.php:362-392 | A known publication whose fields all agree with its item is not saved. |
| Publications.SavedNodeMatchesItem | src/UcsfEdsProfilesLdapManager.php:376-387 | After a save that went through, every declared mapped field holds the item's value and the revision message is set. |
| Publications.StepSettles | src/UcsfEdsProfilesLdapManager.php:359-399 | Reconciling the same item again right after a save that went through changes nothing. |
| Publications.StepsKeepIds | src/UcsfEdsProfilesLdapManager.php:359-401 | Known ids keep their nodes. Stored nodes stay stored. Only listed IDs are added. |
| Publications.ReconciledIds | src/UcsfEdsProfilesLdapManager.php:346-402 | The returned map keeps every listed ID that a stored node carries with the node the query found. Every stored node stays stored. Only listed IDs appear. |
| Publications.RowsAligned | src/UcsfEdsProfilesLdapManager.php:348-374 | When every item has a PublicationID, the i-th ID is compared with the item that carries it. |
| Publications.MisalignedRow | src/UcsfEdsProfilesLdapManager.php:348-374 | An item without a PublicationID makes the next ID be compared with the wrong item. |
| Publications.MisalignedRowNeverSettles | src/UcsfEdsProfilesLdapManager.php:348-398 | With such an item first, every pass records the next ID under a newly created node that is stored without that ID, so the following pass creates another one. |
| NodeSync.SourcesOf | src/UcsfEdsProfilesLdapManager.php:182-187 | A sub-entry can be found only when the uid or department number it needs is truthy. |
| NodeSync.ProfileOf | src/UcsfEdsProfilesLdapManager.php:216-217 | The profile can be found only with a truthy UCSF ID. |
| NodeSync.PublicationStage | src/UcsfEdsProfilesLdapManager.php:222-228 | No reconciliation, and no change to storage, unless the node declares publications and the profile lists IDs. |
| NodeSync.Prepare | src/UcsfEdsProfilesLdapManager.php:182-300 | The values saved are what the hook returns for the redacted values. |
| NodeSync.Commit | src/UcsfEdsProfilesLdapManager.php:304-330 | Setting values and saving keeps the storage valid. |
| NodeSync.SyncResult | src/UcsfEdsProfilesLdapManager.php:158-180 | Returns false with nothing changed when there is no LDAP, an empty title, an invalid e-mail, or an e-mail lookup that is NULL or FALSE. |
| NodeSync.CommitOutcome | src/UcsfEdsProfilesLdapManager.php:304-330 | When a save is due (a new node, or some declared value differs from the stored revision), the node gets the revision message and `updated` is true if and only if the store accepts it. A node that is not new and has no difference is not saved and `updated` is false. After an update the node is stored with every declared value and the message. Without one nothing is stored. Undeclared fields are untouched. |
| NodeSync.CommitSettles | src/UcsfEdsProfilesLdapManager.php:304-330 | Committing the same values again right after a successful save saves nothing, unless they set a declared `revision_log` to something other than the message. |
| NodeSync.HookRevisionLogResaves | src/UcsfEdsProfilesLdapManager.php:304-318 | A declared `revision_log` value other than the message makes a save due again right after a successful save. |
| NodeSync.SyncOutcome | src/UcsfEdsProfilesLdapManagerInterface.php:69-78 | With a directory and an e-mail that finds an entry, `sync` returns true if and only if a save of the prepared values is due and the store accepts it. In every other case it returns false. When true, the node is stored as it stands with the message. No stored node is removed. |
| NodeSync.HookInputFields | src/UcsfEdsProfilesLdapManager.php:193-248 | Only declared fields of the two tables reach the hook, and every declared EDS field does. Without a profile, no profile field reaches the hook and no publication is reconciled. |
| NodeSync.GatheredKeys | src/UcsfEdsProfilesLdapManager.php:193-248 | The mapped values hold every declared EDS field. Their other keys are declared profile fields, present only when a profile was found. |
| NodeSync.EntryCodeFromPrimary | src/UcsfEdsProfilesLdapManager.php:209-210 | The entry release code is read from the primary entry. |
| NodeSync.LockedEntryReachesHook | src/UcsfEdsProfilesLdapManager.php:274-300 | When the primary entry's code is not allowed and the node declares it, no field of either table is set in what the hook receives. |
| NodeSync.ApplyValues | src/UcsfEdsProfilesLdapManager.php:304-313 | Sets exactly the declared values. The flag is the new flag, or whether some declared value differs from the stored revision. |
| NodeSync.MapProfileField | src/UcsfEdsProfilesLdapManager.php:221-245 | One profile field's value. Only the publications field reconciles publications. |
| NodeSync.MapProfileFields | src/UcsfEdsProfilesLdapManager.php:219-247 | The loop over `PROFILES_FIELD_MAP` adds exactly the profile values and reconciles as `PublicationStage` says. |
| NodeSync.PrepareValues | src/UcsfEdsProfilesLdapManager.php:182-300 | Computes what `Prepare` says: the values and the storage after reconciliation. |
| NodeSync.CommitValues | src/UcsfEdsProfilesLdapManager.php:304-330 | Changes the node and the storage exactly as `Commit` says. |
| NodeSync.Sync | src/UcsfEdsProfilesLdapManager.php:158-331 | Changes the node and the storage and returns exactly what `SyncResult` says. |

## Findings

| source | as written | input that shows it | evidently intended | confidence | as-written member | corrected member |
|---|---|---|---|---|---|---|
| src/UcsfEdsProfilesLdapManager.php:354 | The select names the column `field_ucsfpufpub_publicationid_uri` ("pufpub"). The table `node__field_ucsfpfpub_publicationid` has no such column, and the condition on line 355 reads `field_ucsfpfpub_publicationid_uri`. The database throws, and nothing in `sync` catches it. | Any node that declares `field_ucsfeds_prfpublications`, whose profile lists at least one PublicationID. | Select `field_ucsfpfpub_publicationid_uri`, the column the condition reads, and key the result by it. | high; not executed | Publications.QueryAsWrittenThrows | Publications.QueryAsIntended |

## Left out

- Logging: the logger calls are omitted. They do not affect results.
- `hasLdap` and the factory: the directory connection is an optional query
  function fixed when the manager is built. `hasLdap` is whether it is
  present (`LdapManager.Manager.HasLdap`, no contract of its own); its
  effect is stated by `Search` and `SyncResult`. The LDAP factory and its
  bind configuration are not part of this model.
- Attribute names: LDAP attribute names are matched exactly. Case-insensitive
  attribute lookup is not modelled.
- The pre-save hook: it is an uninterpreted function of the redacted values.
  The node, the entries and the profile passed alongside are not modelled,
  nor is Drupal's merging of several implementations' results.
- Loose comparison: PHP's `in_array`, `!=` and `equals`/`getString` become
  value equality and set membership. Numeric-string and `""`-versus-null
  equalities are not modelled.
- Node field values are single PHP values. Field item lists, revisions
  other than the last stored one, `setNewRevision` and entity caches are
  not modelled.
- The PublicationID query: the select at lines 352-356 is modelled as a
  lookup over the stored revisions that carry the PublicationID field. The
  model follows the query as evidently intended (see "## Findings"). The
  `deleted`, language and delta columns are not modelled.
- Entities.Indexed: when several stored nodes carry the same PublicationID,
  the code keeps whichever row the database returns last. The model takes
  the greatest node id, as for rows returned in id order.
- The node label is its `title` field, read as a string.
- `array_column`: the model gives rows only for a list. PHP also goes
  through the values of an associative array; the model drops that case and
  gives no rows for it. Given a scalar, PHP throws a `TypeError`; the model
  gives no rows there either. A `Summary`
  that is not a string is read as the empty string.
- Running the whole synchronisation twice: the model proves settling one
  stage at a time (`NodeSync.CommitSettles`, `Publications.StepSettles`). It
  has no lemma that a second full `sync` returns false. Settling fails
  for misaligned publication rows (`Publications.MisalignedRowNeverSettles`).
  It needs every item to carry a PublicationID, every save to be accepted,
  the publication bundle to declare the PublicationID field, and the hook
  not to set a declared `revision_log` to anything but the message.
- NodeSync.Sync: requires a node that is not new to be stored under its
  id, as every node loaded from storage is. For any other node the source
  reads a missing revision and fails.
- The profile manager, the controller, the queue worker, the settings form
  and the hook documentation file are not part of this model. They only
  call `sync` or configure it.
