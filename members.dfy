/**
 * The cohort-member segment of the repository: an ordered roster of membership edges in
 * which each (cohortUuid, patientUuid) pair occurs at most once.
 */
module Members {
  import opened Entities

  /** No membership edge is stored twice. */
  predicate Distinct(ms: seq<CohortMember>)
  {
    forall i, j :: 0 <= i < j < |ms| ==> ms[i] != ms[j]
  }

  /** The members of cohort `u`, in stored order. */
  function MembersOf(ms: seq<CohortMember>, u: string): (r: seq<CohortMember>)
    ensures forall m :: m in r <==> m in ms && m.cohortUuid == u
    ensures Distinct(ms) ==> Distinct(r)
    decreases |ms|
  {
    if ms == [] then []
    else if ms[0].cohortUuid == u then [ms[0]] + MembersOf(ms[1..], u)
    else MembersOf(ms[1..], u)
  }

  /** The roster with every member of cohort `u` removed. */
  function WithoutCohort(ms: seq<CohortMember>, u: string): (r: seq<CohortMember>)
    ensures forall m :: m in r <==> m in ms && m.cohortUuid != u
    ensures Distinct(ms) ==> Distinct(r)
    decreases |ms|
  {
    if ms == [] then []
    else if ms[0].cohortUuid == u then WithoutCohort(ms[1..], u)
    else [ms[0]] + WithoutCohort(ms[1..], u)
  }

  /** Upsert one membership edge: an edge already stored is not duplicated. */
  function AddMember(ms: seq<CohortMember>, m: CohortMember): (r: seq<CohortMember>)
    ensures forall x :: x in r <==> x in ms || x == m
    ensures Distinct(ms) ==> Distinct(r)
  {
    if m in ms then ms else ms + [m]
  }

  /** Upsert each edge of the batch, front to back. */
  function AddMembers(ms: seq<CohortMember>, xs: seq<CohortMember>): (r: seq<CohortMember>)
    ensures forall x :: x in r <==> x in ms || x in xs
    ensures Distinct(ms) ==> Distinct(r)
    decreases |xs|
  {
    if xs == [] then ms
    else AddMember(AddMembers(ms, xs[..|xs| - 1]), xs[|xs| - 1])
  }

  /** Selecting a cohort's members distributes over concatenation. */
  lemma {:induction false} MembersOfAppend(a: seq<CohortMember>, b: seq<CohortMember>, u: string)
    ensures MembersOf(a + b, u) == MembersOf(a, u) + MembersOf(b, u)
    decreases |a|
  {
    if a == [] {
      assert a + b == b;
    } else {
      var ab := a + b;
      assert ab[0] == a[0] && ab[1..] == a[1..] + b;
      MembersOfAppend(a[1..], b, u);
      var rest := MembersOf(a[1..], u);
      if a[0].cohortUuid == u {
        assert MembersOf(ab, u) == [a[0]] + (rest + MembersOf(b, u));
        assert MembersOf(a, u) == [a[0]] + rest;
        assert [a[0]] + (rest + MembersOf(b, u)) == ([a[0]] + rest) + MembersOf(b, u);
      } else {
        assert MembersOf(ab, u) == rest + MembersOf(b, u);
        assert MembersOf(a, u) == rest;
      }
    }
  }

  /** After the cascade delete of cohort `u`, the cohort has no members. */
  lemma DeleteEmptiesCohort(ms: seq<CohortMember>, u: string)
    ensures MembersOf(WithoutCohort(ms, u), u) == []
  {
  }

  /** The cascade delete of cohort `u` leaves every other cohort's roster as it was. */
  lemma {:induction false} DeleteKeepsOtherCohorts(ms: seq<CohortMember>, u: string, v: string)
    requires u != v
    ensures MembersOf(WithoutCohort(ms, u), v) == MembersOf(ms, v)
    decreases |ms|
  {
    if ms != [] {
      DeleteKeepsOtherCohorts(ms[1..], u, v);
      if ms[0].cohortUuid != u {
        MembersOfAppend([ms[0]], WithoutCohort(ms[1..], u), v);
      }
    }
  }

  /** Saving a member of one cohort leaves every other cohort's roster as it was. */
  lemma SaveKeepsOtherCohorts(ms: seq<CohortMember>, m: CohortMember, v: string)
    requires m.cohortUuid != v
    ensures MembersOf(AddMember(ms, m), v) == MembersOf(ms, v)
  {
    if m !in ms {
      MembersOfAppend(ms, [m], v);
    }
  }

  /** Saving a batch of members leaves the roster of every cohort the batch does not name as it was. */
  lemma {:induction false} SaveAllKeepsOtherCohorts(ms: seq<CohortMember>, xs: seq<CohortMember>, v: string)
    requires forall x :: x in xs ==> x.cohortUuid != v
    ensures MembersOf(AddMembers(ms, xs), v) == MembersOf(ms, v)
    decreases |xs|
  {
    if xs != [] {
      var init := xs[..|xs| - 1];
      assert xs[|xs| - 1] in xs;
      forall x | x in init ensures x.cohortUuid != v {
        assert x in xs;
      }
      SaveAllKeepsOtherCohorts(ms, init, v);
      SaveKeepsOtherCohorts(AddMembers(ms, init), xs[|xs| - 1], v);
    }
  }

  /** In a roster without duplicates, a stored edge occurs exactly once. */
  lemma {:induction false} DistinctOccursOnce(ms: seq<CohortMember>, m: CohortMember)
    requires Distinct(ms) && m in ms
    ensures multiset(ms)[m] == 1
    decreases |ms|
  {
    assert ms == [ms[0]] + ms[1..];
    if ms[0] == m {
      assert m !in ms[1..] by {
        forall k | 0 <= k < |ms| - 1 ensures ms[1..][k] != m {
          assert ms[1..][k] == ms[k + 1];
        }
      }
    } else {
      DistinctOccursOnce(ms[1..], m);
    }
  }

  /** Saving the same edge twice stores it once: the second save changes nothing. */
  lemma SaveTwiceStoresOnce(ms: seq<CohortMember>, m: CohortMember)
    requires Distinct(ms)
    ensures AddMember(AddMember(ms, m), m) == AddMember(ms, m)
    ensures multiset(AddMember(AddMember(ms, m), m))[m] == 1
  {
    DistinctOccursOnce(AddMember(ms, m), m);
  }
}
