/**
 * Client scenarios showing what a caller of the repository can conclude from the
 * service's contracts alone.
 */
module Scenarios {
  import opened Wrappers
  import opened Entities
  import Matching
  import Keyed
  import Service

  /** The filter "TB" picks out the two TB cohorts and not the HIV one, whatever the case. */
  lemma TbFilter()
    ensures Matching.Matches("TB Patients", "TB")
    ensures Matching.Matches("TB Screening", "TB")
    ensures Matching.Matches("TB Screening", "tb")
    ensures !Matching.Matches("HIV Patients", "TB")
  {
    assert Matching.Fold("TB") == "tb";
    assert Matching.Fold("tb") == "tb";
    assert Matching.Fold("TB Patients") == "tb patients";
    assert Matching.Fold("TB Screening") == "tb screening";
    var hiv := "hiv patients";
    assert Matching.Fold("HIV Patients") == hiv;
    assert forall k :: 0 <= k < |hiv| ==> hiv[k] != 'b';
    forall i | 0 <= i && i + 2 <= |hiv| ensures !Matching.OccursAtIndex("tb", hiv, i) {
      assert hiv[i..i + 2][1] == hiv[i + 1];
    }
    Matching.OccursIffSomeIndex("tb", hiv);
  }

  method EmptyRepository()
  {
    var service := new Service.CohortService();
    assert service.GetAllCohorts() == {};
    assert service.GetAllCohortDefinitions() == {};
    assert service.GetCohortByUuid("c1") == None;
    assert service.GetCohortMembers("c1") == [];
  }

  method SaveThenGet()
  {
    var service := new Service.CohortService();
    var tb := Cohort("c1", "TB Patients", "");
    service.SaveCohort(tb);
    assert service.GetCohortByUuid("c1") == Some(tb);
    var other := Cohort("c2", "TB Screening", "");
    service.SaveCohorts([tb, other]);
    assert service.GetCohortByUuid("c2") == Some(other);
    service.DeleteCohort(tb);
    assert service.GetCohortByUuid("c1") == None;
    assert service.GetCohortByUuid("c2") == Some(other);
  }

  const TbPatients := Cohort("c1", "TB Patients", "")
  const TbScreening := Cohort("c2", "TB Screening", "")
  const HivPatients := Cohort("c3", "HIV Patients", "")

  /** Searching the three cohorts for "TB" finds the two TB cohorts; the empty filter finds all three. */
  lemma TbSearch()
    ensures Keyed.Search(map["c1" := TbPatients, "c2" := TbScreening, "c3" := HivPatients], "TB", CohortName)
      == {TbPatients, TbScreening}
    ensures Keyed.Search(map["c1" := TbPatients, "c2" := TbScreening, "c3" := HivPatients], "", CohortName)
      == {TbPatients, TbScreening, HivPatients}
  {
    var m := map["c1" := TbPatients, "c2" := TbScreening, "c3" := HivPatients];
    assert m.Values == {TbPatients, TbScreening, HivPatients} by {
      assert m["c1"] == TbPatients && m["c2"] == TbScreening && m["c3"] == HivPatients;
    }
    TbFilter();
    Keyed.SearchEmptyFilterIsAll(m, CohortName);
  }

  method SearchByName()
  {
    var service := new Service.CohortService();
    service.SaveCohort(TbPatients);
    service.SaveCohort(TbScreening);
    service.SaveCohort(HivPatients);
    assert service.cohorts == map["c1" := TbPatients, "c2" := TbScreening, "c3" := HivPatients];
    TbSearch();
    assert service.GetCohortsByName("TB") == {TbPatients, TbScreening};
    assert service.GetCohortsByName("") == {TbPatients, TbScreening, HivPatients};
  }

  method CascadeDelete()
  {
    var service := new Service.CohortService();
    var p1 := CohortMember("c1", "p1");
    var p2 := CohortMember("c1", "p2");
    var p3 := CohortMember("c2", "p3");
    service.SaveCohortMembers([p1, p2, p3]);
    assert p1 in service.GetCohortMembers("c1");
    assert p3 in service.GetCohortMembers("c2");
    service.DeleteCohortMembers("c1");
    assert service.GetCohortMembers("c1") == [];
    assert p3 in service.GetCohortMembers("c2");
  }
}
