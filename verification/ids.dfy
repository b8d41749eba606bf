/** Opaque identifiers and the ascending order the store sorts them in.

    UUIDs, idempotency keys and row ids are modelled as naturals. The
    source's mix of string and UUID keys is not reproduced: only equality and,
    for `ORDER BY id`, a total order matter. */
module Ids {

  type Uuid = nat

  /** The zero UUID Go leaves in a struct field nobody assigned. */
  const NilUuid: Uuid := 0

  /** `m` is the least element of `s`. */
  predicate IsLeast(s: set<nat>, m: nat) {
    m in s && forall x | x in s :: m <= x
  }

  /** Every non-empty set of naturals has a least element. */
  lemma MinExists(s: set<nat>)
    requires s != {}
    ensures exists m :: IsLeast(s, m)
    decreases s
  {
    var y :| y in s;
    var rest := s - {y};
    if rest == {} {
      forall x | x in s
        ensures y <= x
      {
        assert x == y || x in rest;
      }
      assert IsLeast(s, y);
    } else {
      MinExists(rest);
      var m :| IsLeast(rest, m);
      var least := if y < m then y else m;
      forall x | x in s
        ensures least <= x
      {
        if x != y {
          assert x in rest;
        }
      }
      assert IsLeast(s, least);
    }
  }

  /** The least element of a non-empty set. */
  function Min(s: set<nat>): (m: nat)
    requires s != {}
    ensures m in s
    ensures forall x | x in s :: m <= x
  {
    MinExists(s);
    var m :| IsLeast(s, m);
    m
  }

  /** `r` lists the elements of `s` once each, in strictly ascending order. */
  predicate Enumerates(s: set<nat>, r: seq<nat>) {
    && |r| == |s|
    && (forall i | 0 <= i < |r| :: r[i] in s)
    && (forall x | x in s :: x in r)
    && (forall i, j | 0 <= i < j < |r| :: r[i] < r[j])
  }

  /** Putting the least element in front of an enumeration of the others
      enumerates the whole set. */
  lemma PrependLeast(s: set<nat>, m: nat, rest: seq<nat>)
    requires IsLeast(s, m) && Enumerates(s - {m}, rest)
    ensures Enumerates(s, [m] + rest)
  {
    var r := [m] + rest;
    assert |s - {m}| == |s| - 1;
    forall i | 0 <= i < |r|
      ensures r[i] in s
    {
      if i > 0 {
        assert r[i] == rest[i - 1];
      }
    }
    forall x | x in s
      ensures x in r
    {
      if x != m {
        assert x in s - {m};
        var k :| 0 <= k < |rest| && rest[k] == x;
        assert r[k + 1] == x;
      }
    }
    forall i, j | 0 <= i < j < |r|
      ensures r[i] < r[j]
    {
      assert r[j] == rest[j - 1];
      if i > 0 {
        assert r[i] == rest[i - 1];
      } else {
        assert rest[j - 1] in s - {m};
      }
    }
  }

  /** The elements of `s` listed once each, in strictly ascending order. */
  function Ascending(s: set<nat>): (r: seq<nat>)
    ensures |r| == |s|
    ensures forall i | 0 <= i < |r| :: r[i] in s
    ensures forall x | x in s :: x in r
    ensures forall i, j | 0 <= i < j < |r| :: r[i] < r[j]
    decreases s
  {
    if s == {} then []
    else
      var m := Min(s);
      var rest := Ascending(s - {m});
      PrependLeast(s, m, rest);
      [m] + rest
  }
}
