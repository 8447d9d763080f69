/**
 * The radius filter of the recommendation page: the properties whose
 * precomputed distance to one reference location lies within a radius,
 * nearest first.
 */
module RadiusFilter {
  import opened Wrappers

  /** One row of the selected location column: a property and its distance
      in metres, if the table knows it. */
  datatype Entry = Entry(name: string, distance: Option<real>)

  /** A property kept by the filter, with its distance in metres. */
  datatype Nearby = Nearby(name: string, meters: real)

  /** The column with missing distances dropped and the mask `< limit`
      applied, in table order. */
  function Candidates(column: seq<Entry>, limit: real): (r: seq<Nearby>)
    ensures |r| <= |column|
    ensures forall x :: x in r <==>
      x.meters < limit && exists k :: 0 <= k < |column| && column[k] == Entry(x.name, Some(x.meters))
  {
    if column == [] then []
    else
      var rest := Candidates(column[1..], limit);
      assert forall k :: 0 < k < |column| ==> column[k] == column[1..][k - 1];
      match column[0].distance
      case Some(d) => if d < limit then [Nearby(column[0].name, d)] + rest else rest
      case None => rest
  }

  /** Each row is filtered on its own: the filter of a concatenation is the
      concatenation of the filters, so rows keep their order and none is
      invented or duplicated. */
  lemma {:induction false} CandidatesAppend(c1: seq<Entry>, c2: seq<Entry>, limit: real)
    ensures Candidates(c1 + c2, limit) == Candidates(c1, limit) + Candidates(c2, limit)
  {
    if c1 == [] {
      assert c1 + c2 == c2;
    } else {
      assert (c1 + c2)[0] == c1[0];
      assert (c1 + c2)[1..] == c1[1..] + c2;
      CandidatesAppend(c1[1..], c2, limit);
    }
  }

  predicate Ascending(s: seq<Nearby>) {
    forall i, j :: 0 <= i < j < |s| ==> s[i].meters <= s[j].meters
  }

  /** No element of `s` is nearer than `d`. */
  predicate NoNearerThan(d: real, s: seq<Nearby>) {
    forall k :: 0 <= k < |s| ==> d <= s[k].meters
  }

  lemma NoNearerPermutation(d: real, a: seq<Nearby>, b: seq<Nearby>)
    requires NoNearerThan(d, a) && multiset(a) == multiset(b)
    ensures NoNearerThan(d, b)
  {
    forall k | 0 <= k < |b| ensures d <= b[k].meters {
      assert b[k] in multiset(a);
    }
  }

  /** Places `x` before the first element that is farther away. */
  function InsertByDistance(x: Nearby, s: seq<Nearby>): (r: seq<Nearby>)
    requires Ascending(s)
    ensures Ascending(r)
    ensures multiset(r) == multiset(s) + multiset{x}
  {
    if s == [] then [x]
    else if s[0].meters <= x.meters then
      var rest := InsertByDistance(x, s[1..]);
      assert s == [s[0]] + s[1..];
      assert NoNearerThan(s[0].meters, s[1..] + [x]);
      NoNearerPermutation(s[0].meters, s[1..] + [x], rest);
      [s[0]] + rest
    else
      [x] + s
  }

  /** The rows ordered by distance, nearest first. */
  function SortByDistance(s: seq<Nearby>): (r: seq<Nearby>)
    ensures Ascending(r)
    ensures multiset(r) == multiset(s)
  {
    if s == [] then []
    else
      assert s == [s[0]] + s[1..];
      InsertByDistance(s[0], SortByDistance(s[1..]))
  }

  /** The properties within `radiusKm` kilometres of the selected location,
      nearest first. */
  function WithinRadius(column: seq<Entry>, radiusKm: real): (r: seq<Nearby>)
    ensures Ascending(r)
    ensures multiset(r) == multiset(Candidates(column, radiusKm * 1000.0))
  {
    SortByDistance(Candidates(column, radiusKm * 1000.0))
  }

  /** A property is returned exactly when its distance is known and strictly
      below the radius in metres. */
  lemma WithinRadiusExact(column: seq<Entry>, radiusKm: real, x: Nearby)
    ensures x in WithinRadius(column, radiusKm) <==>
      x.meters < radiusKm * 1000.0 &&
      exists k :: 0 <= k < |column| && column[k] == Entry(x.name, Some(x.meters))
  {
    var r := WithinRadius(column, radiusKm);
    assert x in r <==> x in multiset(r);
  }

  /** Distances are never negative, so a radius of zero or less finds nothing. */
  lemma NonPositiveRadiusFindsNothing(column: seq<Entry>, radiusKm: real)
    requires forall k :: 0 <= k < |column| && column[k].distance.Some? ==> column[k].distance.value >= 0.0
    requires radiusKm <= 0.0
    ensures WithinRadius(column, radiusKm) == []
  {
    var r := WithinRadius(column, radiusKm);
    if r != [] {
      WithinRadiusExact(column, radiusKm, r[0]);
    }
  }

  /** The distances of a result, in result order. */
  function Distances(s: seq<Nearby>): seq<real> {
    seq(|s|, k requires 0 <= k < |s| => s[k].meters)
  }

  lemma DistancesAppend(a: seq<Nearby>, b: seq<Nearby>)
    ensures Distances(a + b) == Distances(a) + Distances(b)
  {
  }

  /** Reordering rows reorders their distances. */
  lemma {:induction false} DistancesPermutation(a: seq<Nearby>, b: seq<Nearby>)
    requires multiset(a) == multiset(b)
    ensures multiset(Distances(a)) == multiset(Distances(b))
  {
    if a == [] {
      assert |b| == |multiset(b)| == 0;
    } else {
      var x := a[0];
      assert x in multiset(b);
      var j :| 0 <= j < |b| && b[j] == x;
      var rest := b[..j] + b[j + 1..];
      assert b == b[..j] + [x] + b[j + 1..];
      assert a == [x] + a[1..];
      assert multiset(b) == multiset(b[..j]) + multiset{x} + multiset(b[j + 1..]);
      assert multiset(rest) == multiset(b) - multiset{x};
      assert multiset(a[1..]) == multiset(a) - multiset{x};
      DistancesPermutation(a[1..], rest);
      DistancesAppend([x], a[1..]);
      DistancesAppend(b[..j], [x]);
      DistancesAppend(b[..j] + [x], b[j + 1..]);
      DistancesAppend(b[..j], b[j + 1..]);
    }
  }

  predicate AscendingReals(s: seq<real>) {
    forall i, j :: 0 <= i < j < |s| ==> s[i] <= s[j]
  }

  /** Two ascending sequences of the same distances are equal. */
  lemma {:induction false} AscendingRealsUnique(a: seq<real>, b: seq<real>)
    requires AscendingReals(a) && AscendingReals(b) && multiset(a) == multiset(b)
    ensures a == b
  {
    if a == [] {
      assert |b| == |multiset(b)| == 0;
    } else {
      assert a[0] in multiset(b) && b[0] in multiset(a);
      assert a[0] == b[0];
      assert a == [a[0]] + a[1..];
      assert b == [b[0]] + b[1..];
      assert multiset(a[1..]) == multiset(a) - multiset{a[0]};
      assert multiset(b[1..]) == multiset(b) - multiset{b[0]};
      AscendingRealsUnique(a[1..], b[1..]);
    }
  }

  /** `sort_values` may order rows of equal distance either way; every order
      it may return lists the same distances in the same sequence as
      `WithinRadius`, so results differ only among rows of equal distance. */
  lemma AnyAscendingOrderAgrees(column: seq<Entry>, radiusKm: real, s: seq<Nearby>)
    requires Ascending(s)
    requires multiset(s) == multiset(Candidates(column, radiusKm * 1000.0))
    ensures Distances(s) == Distances(WithinRadius(column, radiusKm))
  {
    var r := WithinRadius(column, radiusKm);
    DistancesPermutation(s, r);
    AscendingRealsUnique(Distances(s), Distances(r));
  }

  // ---------------------------------------------------------------------------
  // The filter as pandas evaluates the page's expression
  // ---------------------------------------------------------------------------

  predicate HasMissing(column: seq<Entry>) {
    exists k :: 0 <= k < |column| && column[k].distance.None?
  }

  /** The mask is computed on the column after `dropna()`, so it lacks the
      labels of rows with a missing distance; indexing the full table with it
      raises instead of skipping those rows. */
  function WithinRadiusAsWritten(column: seq<Entry>, radiusKm: real)
    : (r: Result<seq<Nearby>, string>)
    ensures r.Failure? <==> HasMissing(column)
    ensures r.Success? ==>
      Ascending(r.value) && multiset(r.value) == multiset(Candidates(column, radiusKm * 1000.0))
  {
    if HasMissing(column) then Failure("Unalignable boolean Series provided as indexer")
    else Success(WithinRadius(column, radiusKm))
  }

  /** The two agree on a column without missing distances. */
  lemma AsWrittenAgreesWithoutMissing(column: seq<Entry>, radiusKm: real)
    requires !HasMissing(column)
    ensures WithinRadiusAsWritten(column, radiusKm) == Success(WithinRadius(column, radiusKm))
  {
  }

  /** One missing distance makes the page's expression fail, where the
      intended filter keeps the one property within 1 km. */
  lemma MissingDistanceFails()
    ensures WithinRadiusAsWritten(
      [Entry("A", Some(500.0)), Entry("B", Some(2000.0)), Entry("C", None)], 1.0).Failure?
    ensures WithinRadius(
      [Entry("A", Some(500.0)), Entry("B", Some(2000.0)), Entry("C", None)], 1.0)
      == [Nearby("A", 500.0)]
  {
    var column := [Entry("A", Some(500.0)), Entry("B", Some(2000.0)), Entry("C", None)];
    assert column[2].distance.None?;
    assert column[1..] == [Entry("B", Some(2000.0)), Entry("C", None)];
    assert column[1..][1..] == [Entry("C", None)];
    assert column[1..][1..][1..] == [];
    assert Candidates(column, 1000.0) == [Nearby("A", 500.0)];
    assert SortByDistance([Nearby("A", 500.0)]) == [Nearby("A", 500.0)] by {
      assert [Nearby("A", 500.0)][1..] == [];
    }
  }
}
