# Cohort repository model

A Dafny model of the local (offline) repository contract of the mUzima cohort service,
`CohortService`. The repository keeps three kinds of record:

- **cohorts** — statically enumerated patient groups, stored by uuid;
- **cohort definitions** — dynamically computed patient groups, stored by uuid;
- **cohort members** — membership edges `(cohortUuid, patientUuid)`.

For cohorts and definitions the service offers save / save-all, update / update-all,
get by uuid, partial-name search, get all and delete. For members it offers save / save-all,
update / update-all, list the members of one cohort, and delete all members of one cohort.

Modules:

- `Entities` (`entities.dfy`): the record datatypes.
- `Matching` (`matching.dfy`): partial-name matching. The repository hands this to its text
  index, whose code is not part of this model. Here a name matches a filter when the
  ASCII-lower-cased filter occurs as a substring of the ASCII-lower-cased name. The service
  results rely on one fact only: the empty filter matches every name.
- `Keyed` (`keyed.dfy`): a generic uuid-keyed store with batch upsert (`UpsertAll`) and name
  search (`Search`), and the lemmas about them.
- `Members` (`members.dfy`): the member roster as a duplicate-free sequence, with the
  per-cohort selection, the cascade delete and the member upsert.
- `Service` (`cohort_service.dfy`): class `CohortService`. It holds the stored state in three
  fields: `cohorts: map<string, Cohort>`, `definitions: map<string, CohortDefinition>` and
  `members: seq<CohortMember>`. The `void` operations are methods that update these fields.
  The list variants loop over the list and save one item per step. The `get` operations are
  functions of the fields.
- `Scenarios` (`scenarios.dfy`): client methods and lemmas. They show what a caller can
  conclude from the contracts alone: an empty repository, save then get, search "TB" among
  three cohorts, and the cascade delete of one cohort's members.

Save and update behave the same way: both upsert. Saving a record whose uuid is already
stored replaces that record and never duplicates it. A lookup of an unknown uuid returns
`None`, not an error. Name-search and get-all results are sets, because the interface promises
no order. Cohort member rosters are sequences in insertion order (see the roster-order line
under "Left out"), and the member lemmas compare them in that order.

## Model

| member | source | states |
|---|---|---|
| Service.CohortService.SaveCohort | src/main/java/com/muzima/api/service/CohortService.java:54-60 | the cohort is stored under its uuid, replacing any cohort with that uuid; getCohortByUuid then returns it; nothing else changes |
| Service.CohortService.SaveCohorts | src/main/java/com/muzima/api/service/CohortService.java:62-68 | the store becomes the batch upsert of the list; the last cohort of the list with a given uuid is retrievable by it; with distinct uuids every cohort of the list is retrievable; other uuids are untouched |
| Service.CohortService.UpdateCohort | src/main/java/com/muzima/api/service/CohortService.java:70-76 | same upsert as save; getCohortByUuid then returns the cohort |
| Service.CohortService.UpdateCohorts | src/main/java/com/muzima/api/service/CohortService.java:78-84 | same batch upsert as saveCohorts; with distinct uuids every cohort of the list is retrievable |
| Service.CohortService.GetCohortByUuid | src/main/java/com/muzima/api/service/CohortService.java:86-95 | returns a stored cohort whose uuid is the one asked for, and absent exactly when no stored cohort has that uuid |
| Service.CohortService.GetCohortsByName | src/main/java/com/muzima/api/service/CohortService.java:97-107 | a cohort is in the result iff it is stored and its name partially matches; the result is empty iff no stored name matches |
| Service.CohortService.GetAllCohorts | src/main/java/com/muzima/api/service/CohortService.java:109-116 | every registered cohort is in the result, each one is retrievable by its uuid, and the result is empty iff nothing is registered |
| Service.CohortService.EmptyNameFindsAllCohorts | src/main/java/com/muzima/api/service/CohortService.java:97-116 | a search with the empty name returns the same set as getAllCohorts |
| Service.CohortService.DeleteCohort | src/main/java/com/muzima/api/service/CohortService.java:118-125 | the cohort's uuid is then absent and every other uuid returns what it returned before |
| Service.CohortService.SaveCohortDefinition | src/main/java/com/muzima/api/service/CohortService.java:148-154 | the definition is stored under its uuid, replacing any with that uuid; get by uuid then returns it; nothing else changes |
| Service.CohortService.SaveCohortDefinitions | src/main/java/com/muzima/api/service/CohortService.java:156-162 | batch upsert; last of the list per uuid wins; with distinct uuids every definition of the list is retrievable; other uuids are untouched |
| Service.CohortService.UpdateCohortDefinition | src/main/java/com/muzima/api/service/CohortService.java:164-170 | same upsert as save; get by uuid then returns the definition |
| Service.CohortService.UpdateCohortDefinitions | src/main/java/com/muzima/api/service/CohortService.java:172-178 | same batch upsert as save-all |
| Service.CohortService.GetCohortDefinitionByUuid | src/main/java/com/muzima/api/service/CohortService.java:180-189 | returns a stored definition with the requested uuid, and absent exactly when none has it |
| Service.CohortService.GetCohortDefinitionsByName | src/main/java/com/muzima/api/service/CohortService.java:191-203 | a definition is in the result iff it is stored and its name partially matches; empty iff none matches |
| Service.CohortService.GetAllCohortDefinitions | src/main/java/com/muzima/api/service/CohortService.java:205-215 | every registered definition is in the result, each retrievable by its uuid; empty iff none is registered |
| Service.CohortService.EmptyNameFindsAllDefinitions | src/main/java/com/muzima/api/service/CohortService.java:191-215 | the empty-name search returns the same set as getAllCohortDefinitions |
| Service.CohortService.DeleteCohortDefinition | src/main/java/com/muzima/api/service/CohortService.java:217-224 | the definition's uuid is then absent and every other uuid is unchanged |
| Service.CohortService.SaveCohortMember | src/main/java/com/muzima/api/service/CohortService.java:240-246 | the member is then listed for its cohort, without duplicating an existing edge; other cohorts' rosters are unchanged |
| Service.CohortService.SaveCohortMembers | src/main/java/com/muzima/api/service/CohortService.java:248-254 | every member of the list is then listed for its cohort; rosters of cohorts the list does not name are unchanged |
| Service.CohortService.UpdateCohortMember | src/main/java/com/muzima/api/service/CohortService.java:256-262 | same upsert as save; the member is then listed for its cohort |
| Service.CohortService.UpdateCohortMembers | src/main/java/com/muzima/api/service/CohortService.java:264-270 | same as save-all; every member of the list is then listed for its cohort |
| Service.CohortService.GetCohortMembers | src/main/java/com/muzima/api/service/CohortService.java:272-282 | exactly the stored members whose cohortUuid is the one asked for, each once; empty iff the cohort has no members |
| Service.CohortService.DeleteCohortMembers | src/main/java/com/muzima/api/service/CohortService.java:284-291 | the cohort then lists no members, and every other cohort lists what it listed before |
| Keyed.UpsertAllKeyedBy | src/main/java/com/muzima/api/service/CohortService.java:62-68 | a batch save keeps every record stored under its own uuid |
| Keyed.UpsertAllKeys | src/main/java/com/muzima/api/service/CohortService.java:62-68 | after a batch save the stored uuids are exactly the old ones plus those of the batch |
| Keyed.UpsertAllUntouched | src/main/java/com/muzima/api/service/CohortService.java:62-68 | a uuid that the batch does not carry keeps its old record, or stays absent |
| Keyed.UpsertAllLastWins | src/main/java/com/muzima/api/service/CohortService.java:62-68 | the last record of the batch with a given uuid is the one stored under that uuid |
| Keyed.UpsertAllDistinct | src/main/java/com/muzima/api/service/CohortService.java:62-68 | with distinct uuids every record of the batch is retrievable by its uuid |
| Keyed.UpsertAllOnBatchUuids | src/main/java/com/muzima/api/service/CohortService.java:62-68 | on the uuids a batch carries, the result of the batch save does not depend on the previous contents |
| Keyed.UpsertAllIdempotent | src/main/java/com/muzima/api/service/CohortService.java:62-84 | saving (or updating) the same batch twice leaves the store as saving it once |
| Keyed.SearchEmptyFilterIsAll | src/main/java/com/muzima/api/service/CohortService.java:97-98 | the empty filter finds every stored record |
| Matching.OccursIffSomeIndex | src/main/java/com/muzima/api/service/CohortService.java:97-107 | the scanning partial-match test holds iff the filter sits in the name at some index |
| Matching.EmptyFilterMatchesAll | src/main/java/com/muzima/api/service/CohortService.java:98 | the empty filter matches every name |
| Matching.SameFoldSameMatch | src/main/java/com/muzima/api/service/CohortService.java:97-107 | two filters that differ only in case match exactly the same names |
| Matching.MatchesIgnoresCase | src/main/java/com/muzima/api/service/CohortService.java:97-107 | matching gives the same answer when the name or the filter is replaced by its lower-cased form |
| Members.MembersOf | src/main/java/com/muzima/api/service/CohortService.java:272-282 | selects exactly the edges of the given cohort and keeps the roster free of duplicates |
| Members.WithoutCohort | src/main/java/com/muzima/api/service/CohortService.java:284-291 | keeps exactly the edges of other cohorts, free of duplicates |
| Members.AddMember | src/main/java/com/muzima/api/service/CohortService.java:240-246 | the roster then holds the old edges plus the new one, still free of duplicates |
| Members.AddMembers | src/main/java/com/muzima/api/service/CohortService.java:248-254 | the roster then holds the old edges plus the batch, still free of duplicates |
| Members.DeleteEmptiesCohort | src/main/java/com/muzima/api/service/CohortService.java:284-291 | after the cascade delete the cohort has no members |
| Members.DeleteKeepsOtherCohorts | src/main/java/com/muzima/api/service/CohortService.java:284-291 | the cascade delete leaves every other cohort's ordered roster unchanged |
| Members.SaveKeepsOtherCohorts | src/main/java/com/muzima/api/service/CohortService.java:240-246 | saving a member leaves other cohorts' rosters unchanged |
| Members.SaveAllKeepsOtherCohorts | src/main/java/com/muzima/api/service/CohortService.java:248-254 | saving a batch leaves unchanged the roster of every cohort the batch does not name |
| Members.SaveTwiceStoresOnce | src/main/java/com/muzima/api/service/CohortService.java:240-254 | saving the same edge twice equals saving it once, and the edge is stored exactly once |
| Scenarios.TbFilter | src/main/java/com/muzima/api/service/CohortService.java:97-107 | "TB" matches "TB Patients" and "TB Screening", "tb" matches "TB Screening", and "TB" does not match "HIV Patients" |
| Scenarios.TbSearch | src/main/java/com/muzima/api/service/CohortService.java:97-107 | among those three stored cohorts, searching "TB" returns the first two and the empty filter returns all three |

## Left out

- The download operations (`downloadCohortByUuid`, `downloadCohortsByName`, `downloadCohortDefinitionByUuid`, `downloadCohortDefinitionsByName`, `downloadCohortData`) fetch from the server's REST and reporting resources; their behaviour lives in the implementation class and the server, which are not part of this model.
- `IOException` (media failure of the index) and `ParseException` (the index's query parser rejecting a filter) are library and I/O behaviour; the model has no failure path, so every operation succeeds.
- The implementation class `CohortServiceImpl` and the text index behind it are not part of this model; partial matching is modelled as case-insensitive ASCII substring containment, not the index's tokenisation; relevance ranking and result order are not modelled (results are sets).
- Service.CohortService.GetCohortsByName: returns a set, not an ordered list, because no order is promised; the same holds for GetAllCohorts, GetCohortDefinitionsByName and GetAllCohortDefinitions.
- The member roster keeps insertion order; that order is a modelling choice, since the interface promises none.
- Rejecting a member with an empty cohort uuid is not in the interface, so it is not modelled.
- `deleteCohort` does not delete the cohort's members; the interface offers `deleteCohortMembers` for that.
- Atomicity of the cascade delete against concurrent readers is not modelled; the model is sequential.
- Dependency-injection wiring (`@ImplementedBy`) is not modelled; the classes `JsonUtils` (JSON field access), `NetworkUtils` (network reachability) and `AdministrativeServiceTest` (repository bootstrapping test) lie outside the repository contract.
- The record datatypes keep only uuid, name and description (and the two uuids of a member); other fields of the real model classes are not part of this model.
