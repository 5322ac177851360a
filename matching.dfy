/**
 * Partial-name matching used by the name searches. The repository delegates this to a
 * text index; the model takes it to be case-insensitive (ASCII) substring containment.
 * The service-level results rely only on `EmptyFilterMatchesAll`.
 */
module Matching {
  function ToLower(c: char): char
  {
    if 'A' <= c <= 'Z' then (c as int + 32) as char else c
  }

  /** The ASCII lower-case form of `s`. */
  function Fold(s: string): string
  {
    seq(|s|, i requires 0 <= i < |s| => ToLower(s[i]))
  }

  /** `p` occurs somewhere in `s`, scanning from the front. */
  predicate Occurs(p: string, s: string)
    decreases |s|
  {
    p <= s || (s != [] && Occurs(p, s[1..]))
  }

  /** Reference definition: `p` sits in `s` starting at index `i`. */
  ghost predicate OccursAtIndex(p: string, s: string, i: int)
  {
    0 <= i && i + |p| <= |s| && s[i..i + |p|] == p
  }

  /** A stored name matches a search filter when the filter occurs in it, ignoring case. */
  predicate Matches(name: string, filter: string)
  {
    Occurs(Fold(filter), Fold(name))
  }

  /** The scanning definition agrees with the index-based one, in both directions. */
  lemma {:induction false} OccursIffSomeIndex(p: string, s: string)
    ensures Occurs(p, s) <==> exists i :: OccursAtIndex(p, s, i)
    decreases |s|
  {
    if p <= s {
      assert OccursAtIndex(p, s, 0);
    } else if s == [] {
    } else {
      OccursIffSomeIndex(p, s[1..]);
      if Occurs(p, s[1..]) {
        var i :| OccursAtIndex(p, s[1..], i);
        assert s[1..][i..i + |p|] == s[i + 1..i + 1 + |p|];
        assert OccursAtIndex(p, s, i + 1);
      }
      if exists i :: OccursAtIndex(p, s, i) {
        var i :| OccursAtIndex(p, s, i);
        assert i != 0;
        assert s[1..][i - 1..i - 1 + |p|] == s[i..i + |p|];
        assert OccursAtIndex(p, s[1..], i - 1);
      }
    }
  }

  /** The empty filter matches every name: an empty search means "everything". */
  lemma EmptyFilterMatchesAll(name: string)
    ensures Matches(name, "")
  {
    assert Fold("") == [];
  }

  /** Filters with the same case-folded form match the same names. */
  lemma SameFoldSameMatch(name: string, f1: string, f2: string)
    requires Fold(f1) == Fold(f2)
    ensures Matches(name, f1) <==> Matches(name, f2)
  {
  }

  /** Matching ignores the case of both the name and the filter. */
  lemma {:induction false} MatchesIgnoresCase(name: string, filter: string)
    ensures Matches(name, filter) <==> Matches(Fold(name), filter)
    ensures Matches(name, filter) <==> Matches(name, Fold(filter))
  {
    FoldIdempotent(name);
    FoldIdempotent(filter);
  }

  lemma FoldIdempotent(s: string)
    ensures Fold(Fold(s)) == Fold(s)
  {
  }
}
