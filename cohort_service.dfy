/**
 * The local repository side of the cohort service: cohorts and cohort definitions stored
 * by uuid (save and update are both upserts), partial-name search, listing and delete,
 * and the cohort-member roster with its per-cohort listing and cascade delete.
 */
module Service {
  import opened Wrappers
  import opened Entities
  import Matching
  import Keyed
  import Members

  class CohortService {
    var cohorts: map<string, Cohort>
    var definitions: map<string, CohortDefinition>
    var members: seq<CohortMember>

    /** Records sit under their own uuid; no membership edge is stored twice. */
    ghost predicate Valid()
      reads this
    {
      && Keyed.KeyedBy(cohorts, CohortUuid)
      && Keyed.KeyedBy(definitions, DefinitionUuid)
      && Members.Distinct(members)
    }

    /** An empty repository. */
    constructor ()
      ensures Valid()
      ensures cohorts == map[] && definitions == map[] && members == []
    {
      cohorts := map[];
      definitions := map[];
      members := [];
    }

    // ---------------------------------------------------------------- cohorts

    /** saveCohort: store the cohort under its uuid, replacing any cohort with that uuid. */
    method SaveCohort(cohort: Cohort)
      requires Valid()
      modifies this
      ensures Valid()
      ensures cohorts == old(cohorts)[cohort.uuid := cohort]
      ensures definitions == old(definitions) && members == old(members)
      ensures GetCohortByUuid(cohort.uuid) == Some(cohort)
    {
      cohorts := cohorts[cohort.uuid := cohort];
    }

    /** saveCohorts: save each cohort of the list in turn. */
    method SaveCohorts(list: seq<Cohort>)
      requires Valid()
      modifies this
      ensures Valid()
      ensures cohorts == Keyed.UpsertAll(old(cohorts), list, CohortUuid)
      ensures definitions == old(definitions) && members == old(members)
      ensures forall i :: 0 <= i < |list| && Keyed.LastWithItsUuid(list, i, CohortUuid) ==>
        GetCohortByUuid(list[i].uuid) == Some(list[i])
      ensures Keyed.DistinctUuids(list, CohortUuid) ==>
        forall c :: c in list ==> GetCohortByUuid(c.uuid) == Some(c)
      ensures forall u :: u !in Keyed.UuidsOf(list, CohortUuid) ==>
        GetCohortByUuid(u) == old(GetCohortByUuid(u))
    {
      var i := 0;
      while i < |list|
        invariant 0 <= i <= |list|
        invariant Valid()
        invariant cohorts == Keyed.UpsertAll(old(cohorts), list[..i], CohortUuid)
        invariant definitions == old(definitions) && members == old(members)
      {
        SaveCohort(list[i]);
        assert list[..i + 1][..i] == list[..i];
        i := i + 1;
      }
      assert list[..i] == list;
      forall k | 0 <= k < |list| && Keyed.LastWithItsUuid(list, k, CohortUuid)
        ensures GetCohortByUuid(list[k].uuid) == Some(list[k])
      {
        Keyed.UpsertAllLastWins(old(cohorts), list, CohortUuid, k);
      }
      if Keyed.DistinctUuids(list, CohortUuid) {
        Keyed.UpsertAllDistinct(old(cohorts), list, CohortUuid);
      }
      forall u | u !in Keyed.UuidsOf(list, CohortUuid)
        ensures GetCohortByUuid(u) == old(GetCohortByUuid(u))
      {
        Keyed.UpsertAllUntouched(old(cohorts), list, CohortUuid, u);
      }
    }

    /** updateCohort: the store is upsert-only, so an update is a save. */
    method UpdateCohort(cohort: Cohort)
      requires Valid()
      modifies this
      ensures Valid()
      ensures cohorts == old(cohorts)[cohort.uuid := cohort]
      ensures definitions == old(definitions) && members == old(members)
      ensures GetCohortByUuid(cohort.uuid) == Some(cohort)
    {
      SaveCohort(cohort);
    }

    /** updateCohorts: the store is upsert-only, so a batch update is a batch save. */
    method UpdateCohorts(list: seq<Cohort>)
      requires Valid()
      modifies this
      ensures Valid()
      ensures cohorts == Keyed.UpsertAll(old(cohorts), list, CohortUuid)
      ensures definitions == old(definitions) && members == old(members)
      ensures Keyed.DistinctUuids(list, CohortUuid) ==>
        forall c :: c in list ==> GetCohortByUuid(c.uuid) == Some(c)
    {
      SaveCohorts(list);
    }

    /** getCohortByUuid: the cohort with that uuid, or absent when none has it. */
    function GetCohortByUuid(uuid: string): (r: Option<Cohort>)
      reads this
      requires Valid()
      ensures r.Some? ==> r.value in cohorts.Values && r.value.uuid == uuid
      ensures r.None? <==> forall c :: c in cohorts.Values ==> c.uuid != uuid
    {
      if uuid in cohorts then Some(cohorts[uuid]) else None
    }

    /** getCohortsByName: the stored cohorts whose name partially matches; empty when none does. */
    function GetCohortsByName(name: string): (r: set<Cohort>)
      reads this
      ensures forall c :: c in r <==> c in cohorts.Values && Matching.Matches(c.name, name)
      ensures r == {} <==> forall c :: c in cohorts.Values ==> !Matching.Matches(c.name, name)
    {
      Keyed.Search(cohorts, name, CohortName)
    }

    /** getAllCohorts: every registered cohort; empty exactly when none is registered. */
    function GetAllCohorts(): (r: set<Cohort>)
      reads this
      requires Valid()
      ensures forall u :: u in cohorts ==> cohorts[u] in r
      ensures forall c :: c in r ==> GetCohortByUuid(c.uuid) == Some(c)
      ensures r == {} <==> cohorts == map[]
    {
      cohorts.Values
    }

    /** An empty name search returns every stored cohort. */
    lemma EmptyNameFindsAllCohorts()
      requires Valid()
      ensures GetCohortsByName("") == GetAllCohorts()
    {
      Keyed.SearchEmptyFilterIsAll(cohorts, CohortName);
    }

    /** deleteCohort: remove the cohort stored under its uuid; every other cohort stays. */
    method DeleteCohort(cohort: Cohort)
      requires Valid()
      modifies this
      ensures Valid()
      ensures cohorts == old(cohorts) - {cohort.uuid}
      ensures definitions == old(definitions) && members == old(members)
      ensures GetCohortByUuid(cohort.uuid) == None
      ensures forall u :: u != cohort.uuid ==> GetCohortByUuid(u) == old(GetCohortByUuid(u))
    {
      cohorts := cohorts - {cohort.uuid};
    }

    // ----------------------------------------------------- cohort definitions

    /** saveCohortDefinition: store the definition under its uuid, replacing any with that uuid. */
    method SaveCohortDefinition(definition: CohortDefinition)
      requires Valid()
      modifies this
      ensures Valid()
      ensures definitions == old(definitions)[definition.uuid := definition]
      ensures cohorts == old(cohorts) && members == old(members)
      ensures GetCohortDefinitionByUuid(definition.uuid) == Some(definition)
    {
      definitions := definitions[definition.uuid := definition];
    }

    /** saveCohortDefinitions: save each definition of the list in turn. */
    method SaveCohortDefinitions(list: seq<CohortDefinition>)
      requires Valid()
      modifies this
      ensures Valid()
      ensures definitions == Keyed.UpsertAll(old(definitions), list, DefinitionUuid)
      ensures cohorts == old(cohorts) && members == old(members)
      ensures forall i :: 0 <= i < |list| && Keyed.LastWithItsUuid(list, i, DefinitionUuid) ==>
        GetCohortDefinitionByUuid(list[i].uuid) == Some(list[i])
      ensures Keyed.DistinctUuids(list, DefinitionUuid) ==>
        forall d :: d in list ==> GetCohortDefinitionByUuid(d.uuid) == Some(d)
      ensures forall u :: u !in Keyed.UuidsOf(list, DefinitionUuid) ==>
        GetCohortDefinitionByUuid(u) == old(GetCohortDefinitionByUuid(u))
    {
      var i := 0;
      while i < |list|
        invariant 0 <= i <= |list|
        invariant Valid()
        invariant definitions == Keyed.UpsertAll(old(definitions), list[..i], DefinitionUuid)
        invariant cohorts == old(cohorts) && members == old(members)
      {
        SaveCohortDefinition(list[i]);
        assert list[..i + 1][..i] == list[..i];
        i := i + 1;
      }
      assert list[..i] == list;
      forall k | 0 <= k < |list| && Keyed.LastWithItsUuid(list, k, DefinitionUuid)
        ensures GetCohortDefinitionByUuid(list[k].uuid) == Some(list[k])
      {
        Keyed.UpsertAllLastWins(old(definitions), list, DefinitionUuid, k);
      }
      if Keyed.DistinctUuids(list, DefinitionUuid) {
        Keyed.UpsertAllDistinct(old(definitions), list, DefinitionUuid);
      }
      forall u | u !in Keyed.UuidsOf(list, DefinitionUuid)
        ensures GetCohortDefinitionByUuid(u) == old(GetCohortDefinitionByUuid(u))
      {
        Keyed.UpsertAllUntouched(old(definitions), list, DefinitionUuid, u);
      }
    }

    /** updateCohortDefinition: an update is a save. */
    method UpdateCohortDefinition(definition: CohortDefinition)
      requires Valid()
      modifies this
      ensures Valid()
      ensures definitions == old(definitions)[definition.uuid := definition]
      ensures cohorts == old(cohorts) && members == old(members)
      ensures GetCohortDefinitionByUuid(definition.uuid) == Some(definition)
    {
      SaveCohortDefinition(definition);
    }

    /** updateCohortDefinitions: a batch update is a batch save. */
    method UpdateCohortDefinitions(list: seq<CohortDefinition>)
      requires Valid()
      modifies this
      ensures Valid()
      ensures definitions == Keyed.UpsertAll(old(definitions), list, DefinitionUuid)
      ensures cohorts == old(cohorts) && members == old(members)
      ensures Keyed.DistinctUuids(list, DefinitionUuid) ==>
        forall d :: d in list ==> GetCohortDefinitionByUuid(d.uuid) == Some(d)
    {
      SaveCohortDefinitions(list);
    }

    /** getCohortDefinitionByUuid: the definition with that uuid, or absent when none has it. */
    function GetCohortDefinitionByUuid(uuid: string): (r: Option<CohortDefinition>)
      reads this
      requires Valid()
      ensures r.Some? ==> r.value in definitions.Values && r.value.uuid == uuid
      ensures r.None? <==> forall d :: d in definitions.Values ==> d.uuid != uuid
    {
      if uuid in definitions then Some(definitions[uuid]) else None
    }

    /** getCohortDefinitionsByName: the stored definitions whose name partially matches. */
    function GetCohortDefinitionsByName(name: string): (r: set<CohortDefinition>)
      reads this
      ensures forall d :: d in r <==> d in definitions.Values && Matching.Matches(d.name, name)
      ensures r == {} <==> forall d :: d in definitions.Values ==> !Matching.Matches(d.name, name)
    {
      Keyed.Search(definitions, name, DefinitionName)
    }

    /** getAllCohortDefinitions: every registered definition; empty exactly when none is. */
    function GetAllCohortDefinitions(): (r: set<CohortDefinition>)
      reads this
      requires Valid()
      ensures forall u :: u in definitions ==> definitions[u] in r
      ensures forall d :: d in r ==> GetCohortDefinitionByUuid(d.uuid) == Some(d)
      ensures r == {} <==> definitions == map[]
    {
      definitions.Values
    }

    /** An empty name search returns every stored definition. */
    lemma EmptyNameFindsAllDefinitions()
      requires Valid()
      ensures GetCohortDefinitionsByName("") == GetAllCohortDefinitions()
    {
      Keyed.SearchEmptyFilterIsAll(definitions, DefinitionName);
    }

    /** deleteCohortDefinition: remove the definition stored under its uuid. */
    method DeleteCohortDefinition(definition: CohortDefinition)
      requires Valid()
      modifies this
      ensures Valid()
      ensures definitions == old(definitions) - {definition.uuid}
      ensures cohorts == old(cohorts) && members == old(members)
      ensures GetCohortDefinitionByUuid(definition.uuid) == None
      ensures forall u :: u != definition.uuid ==>
        GetCohortDefinitionByUuid(u) == old(GetCohortDefinitionByUuid(u))
    {
      definitions := definitions - {definition.uuid};
    }

    // --------------------------------------------------------- cohort members

    /** saveCohortMember: add the edge to the roster unless it is already there. */
    method SaveCohortMember(member: CohortMember)
      requires Valid()
      modifies this
      ensures Valid()
      ensures members == Members.AddMember(old(members), member)
      ensures cohorts == old(cohorts) && definitions == old(definitions)
      ensures member in GetCohortMembers(member.cohortUuid)
      ensures forall v :: v != member.cohortUuid ==> GetCohortMembers(v) == old(GetCohortMembers(v))
    {
      members := Members.AddMember(members, member);
      forall v | v != member.cohortUuid
        ensures GetCohortMembers(v) == old(GetCohortMembers(v))
      {
        Members.SaveKeepsOtherCohorts(old(members), member, v);
      }
    }

    /** saveCohortMembers: save each edge of the list in turn. */
    method SaveCohortMembers(list: seq<CohortMember>)
      requires Valid()
      modifies this
      ensures Valid()
      ensures members == Members.AddMembers(old(members), list)
      ensures cohorts == old(cohorts) && definitions == old(definitions)
      ensures forall m :: m in list ==> m in GetCohortMembers(m.cohortUuid)
      ensures forall v :: (forall m :: m in list ==> m.cohortUuid != v) ==>
        GetCohortMembers(v) == old(GetCohortMembers(v))
    {
      var i := 0;
      while i < |list|
        invariant 0 <= i <= |list|
        invariant Valid()
        invariant members == Members.AddMembers(old(members), list[..i])
        invariant cohorts == old(cohorts) && definitions == old(definitions)
      {
        SaveCohortMember(list[i]);
        assert list[..i + 1][..i] == list[..i];
        i := i + 1;
      }
      assert list[..i] == list;
      forall v | forall m :: m in list ==> m.cohortUuid != v
        ensures GetCohortMembers(v) == old(GetCohortMembers(v))
      {
        Members.SaveAllKeepsOtherCohorts(old(members), list, v);
      }
    }

    /** updateCohortMember: an update is a save. */
    method UpdateCohortMember(member: CohortMember)
      requires Valid()
      modifies this
      ensures Valid()
      ensures members == Members.AddMember(old(members), member)
      ensures cohorts == old(cohorts) && definitions == old(definitions)
      ensures member in GetCohortMembers(member.cohortUuid)
    {
      SaveCohortMember(member);
    }

    /** updateCohortMembers: a batch update is a batch save. */
    method UpdateCohortMembers(list: seq<CohortMember>)
      requires Valid()
      modifies this
      ensures Valid()
      ensures members == Members.AddMembers(old(members), list)
      ensures cohorts == old(cohorts) && definitions == old(definitions)
      ensures forall m :: m in list ==> m in GetCohortMembers(m.cohortUuid)
    {
      SaveCohortMembers(list);
    }

    /** getCohortMembers: exactly the stored members of the cohort, each once; empty when none. */
    function GetCohortMembers(cohortUuid: string): (r: seq<CohortMember>)
      reads this
      requires Valid()
      ensures forall m :: m in r <==> m in members && m.cohortUuid == cohortUuid
      ensures Members.Distinct(r)
      ensures r == [] <==> forall m :: m in members ==> m.cohortUuid != cohortUuid
    {
      var r := Members.MembersOf(members, cohortUuid);
      assert r != [] ==> r[0] in r;
      r
    }

    /** deleteCohortMembers: remove every member of the cohort; other cohorts keep theirs. */
    method DeleteCohortMembers(cohortUuid: string)
      requires Valid()
      modifies this
      ensures Valid()
      ensures members == Members.WithoutCohort(old(members), cohortUuid)
      ensures cohorts == old(cohorts) && definitions == old(definitions)
      ensures GetCohortMembers(cohortUuid) == []
      ensures forall v :: v != cohortUuid ==> GetCohortMembers(v) == old(GetCohortMembers(v))
    {
      members := Members.WithoutCohort(members, cohortUuid);
      Members.DeleteEmptiesCohort(old(members), cohortUuid);
      forall v | v != cohortUuid
        ensures GetCohortMembers(v) == old(GetCohortMembers(v))
      {
        Members.DeleteKeepsOtherCohorts(old(members), cohortUuid, v);
      }
    }
  }
}
