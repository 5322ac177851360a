/**
 * A uuid-keyed record store, generic in the record type: the shared shape of the cohort
 * and cohort definition segments of the repository. `uuidOf` and `nameOf` select a
 * record's identity and its searchable name.
 */
module Keyed {
  import Matching

  /** Every record is stored under its own uuid (uuid is the sole identity key). */
  ghost predicate KeyedBy<T>(m: map<string, T>, uuidOf: T -> string)
  {
    forall u :: u in m ==> uuidOf(m[u]) == u
  }

  /** The uuids carried by a batch of records. */
  ghost function UuidsOf<T>(xs: seq<T>, uuidOf: T -> string): set<string>
  {
    set x | x in xs :: uuidOf(x)
  }

  /** No two records of the batch share a uuid. */
  ghost predicate DistinctUuids<T>(xs: seq<T>, uuidOf: T -> string)
  {
    forall i, j :: 0 <= i < j < |xs| ==> uuidOf(xs[i]) != uuidOf(xs[j])
  }

  /** No record after position `i` of the batch carries the uuid of `xs[i]`. */
  ghost predicate LastWithItsUuid<T>(xs: seq<T>, i: int, uuidOf: T -> string)
    requires 0 <= i < |xs|
  {
    forall j :: i < j < |xs| ==> uuidOf(xs[j]) != uuidOf(xs[i])
  }

  /** Upsert each record of the batch, front to back. */
  function UpsertAll<T>(m: map<string, T>, xs: seq<T>, uuidOf: T -> string): map<string, T>
    decreases |xs|
  {
    if xs == [] then m
    else
      var last := xs[|xs| - 1];
      UpsertAll(m, xs[..|xs| - 1], uuidOf)[uuidOf(last) := last]
  }

  /** The stored records whose name partially matches the filter. */
  function Search<T>(m: map<string, T>, filter: string, nameOf: T -> string): set<T>
  {
    set x | x in m.Values && Matching.Matches(nameOf(x), filter)
  }

  /** A batch upsert keeps every record under its own uuid. */
  lemma {:induction false} UpsertAllKeyedBy<T>(m: map<string, T>, xs: seq<T>, uuidOf: T -> string)
    requires KeyedBy(m, uuidOf)
    ensures KeyedBy(UpsertAll(m, xs, uuidOf), uuidOf)
    decreases |xs|
  {
    if xs != [] {
      UpsertAllKeyedBy(m, xs[..|xs| - 1], uuidOf);
    }
  }

  /** After a batch upsert the store holds exactly the old uuids and those of the batch. */
  lemma {:induction false} UpsertAllKeys<T>(m: map<string, T>, xs: seq<T>, uuidOf: T -> string)
    ensures UpsertAll(m, xs, uuidOf).Keys == m.Keys + UuidsOf(xs, uuidOf)
    decreases |xs|
  {
    if xs != [] {
      var init := xs[..|xs| - 1];
      UpsertAllKeys(m, init, uuidOf);
      assert xs == init + [xs[|xs| - 1]];
      assert UuidsOf(xs, uuidOf) == UuidsOf(init, uuidOf) + {uuidOf(xs[|xs| - 1])};
    }
  }

  /** A uuid the batch does not carry keeps its old record. */
  lemma {:induction false} UpsertAllUntouched<T>(m: map<string, T>, xs: seq<T>, uuidOf: T -> string, u: string)
    requires u !in UuidsOf(xs, uuidOf)
    ensures u in UpsertAll(m, xs, uuidOf) <==> u in m
    ensures u in m ==> UpsertAll(m, xs, uuidOf)[u] == m[u]
    decreases |xs|
  {
    if xs != [] {
      var init := xs[..|xs| - 1];
      assert xs[|xs| - 1] in xs;
      assert UuidsOf(init, uuidOf) <= UuidsOf(xs, uuidOf) by {
        forall x | x in init ensures x in xs { }
      }
      UpsertAllUntouched(m, init, uuidOf, u);
    }
  }

  /** The last record of the batch with a given uuid is the one stored under it. */
  lemma {:induction false} UpsertAllLastWins<T>(m: map<string, T>, xs: seq<T>, uuidOf: T -> string, i: int)
    requires 0 <= i < |xs|
    requires LastWithItsUuid(xs, i, uuidOf)
    ensures uuidOf(xs[i]) in UpsertAll(m, xs, uuidOf)
    ensures UpsertAll(m, xs, uuidOf)[uuidOf(xs[i])] == xs[i]
    decreases |xs|
  {
    if i < |xs| - 1 {
      var init := xs[..|xs| - 1];
      assert init[i] == xs[i];
      UpsertAllLastWins(m, init, uuidOf, i);
    }
  }

  /** With distinct uuids, every record of the batch is retrievable by its uuid. */
  lemma UpsertAllDistinct<T>(m: map<string, T>, xs: seq<T>, uuidOf: T -> string)
    requires DistinctUuids(xs, uuidOf)
    ensures forall i :: 0 <= i < |xs| ==>
      uuidOf(xs[i]) in UpsertAll(m, xs, uuidOf) && UpsertAll(m, xs, uuidOf)[uuidOf(xs[i])] == xs[i]
  {
    forall i | 0 <= i < |xs|
      ensures uuidOf(xs[i]) in UpsertAll(m, xs, uuidOf) && UpsertAll(m, xs, uuidOf)[uuidOf(xs[i])] == xs[i]
    {
      UpsertAllLastWins(m, xs, uuidOf, i);
    }
  }

  /** On the uuids the batch carries, the starting store makes no difference. */
  lemma {:induction false} UpsertAllOnBatchUuids<T>(m1: map<string, T>, m2: map<string, T>, xs: seq<T>,
                                                    uuidOf: T -> string, u: string)
    requires u in UuidsOf(xs, uuidOf)
    ensures u in UpsertAll(m1, xs, uuidOf) && u in UpsertAll(m2, xs, uuidOf)
    ensures UpsertAll(m1, xs, uuidOf)[u] == UpsertAll(m2, xs, uuidOf)[u]
    decreases |xs|
  {
    var init := xs[..|xs| - 1];
    var last := xs[|xs| - 1];
    if uuidOf(last) != u {
      var x :| x in xs && uuidOf(x) == u;
      assert xs == init + [last];
      assert x in init;
      UpsertAllOnBatchUuids(m1, m2, init, uuidOf, u);
    }
  }

  /** Saving the same batch twice leaves the same store as saving it once. */
  lemma UpsertAllIdempotent<T>(m: map<string, T>, xs: seq<T>, uuidOf: T -> string)
    ensures UpsertAll(UpsertAll(m, xs, uuidOf), xs, uuidOf) == UpsertAll(m, xs, uuidOf)
  {
    var once := UpsertAll(m, xs, uuidOf);
    var twice := UpsertAll(once, xs, uuidOf);
    UpsertAllKeys(m, xs, uuidOf);
    UpsertAllKeys(once, xs, uuidOf);
    forall u | u in twice ensures twice[u] == once[u] {
      if u in UuidsOf(xs, uuidOf) {
        UpsertAllOnBatchUuids(once, m, xs, uuidOf, u);
      } else {
        UpsertAllUntouched(once, xs, uuidOf, u);
      }
    }
  }

  /** The empty filter finds every stored record. */
  lemma SearchEmptyFilterIsAll<T>(m: map<string, T>, nameOf: T -> string)
    ensures Search(m, "", nameOf) == m.Values
  {
    forall x | x in m.Values ensures Matching.Matches(nameOf(x), "") {
      Matching.EmptyFilterMatchesAll(nameOf(x));
    }
  }
}
