/**
 Nearest-station ranking: `closest_stations(lat, lon, limit)` stably sorts the
 registry by distance from the query point and returns `sorted[:limit]`.

 The great-circle (haversine) distance is floating-point trigonometry and is
 not modelled: it is the parameter `dist`, an arbitrary real-valued function
 of two coordinates, and every property below holds whatever it is.
 */
module Proximity {
  import opened Registry
  import opened StableSort

  /** A `(lat, lon)` pair in degrees. */
  datatype Coord = Coord(lat: real, lon: real)

  /** The end index of Python's slice `xs[:limit]` on a sequence of length
      `n`: a non-negative limit is clamped to `n`, a negative one counts back
      from the end (and is clamped to 0). */
  function SliceEnd(n: nat, limit: int): (m: nat)
    ensures m <= n
  {
    if limit >= 0 then (if limit <= n then limit else n)
    else if n + limit >= 0 then n + limit
    else 0
  }

  /** The sort key of `closest_stations`: a station's distance from the query point. */
  function DistanceFrom(dist: (Coord, Coord) -> real, lat: real, lon: real): Station -> real {
    (s: Station) => dist(Coord(lat, lon), Coord(s.lat, s.lon))
  }

  /** `closest_stations(lat, lon, limit)`: the first `limit` stations of the
      registry stably sorted by distance from `(lat, lon)`. */
  function ClosestStations(reg: seq<Station>, dist: (Coord, Coord) -> real, lat: real, lon: real, limit: int): (r: seq<Station>)
    ensures |r| == SliceEnd(|reg|, limit)
    ensures limit >= 0 ==> |r| == if limit <= |reg| then limit else |reg|
    ensures SortedBy(r, DistanceFrom(dist, lat, lon))
    ensures multiset(r) <= multiset(reg)
  {
    var sorted := SortByKey(reg, DistanceFrom(dist, lat, lon));
    var m := SliceEnd(|reg|, limit);
    assert sorted == sorted[..m] + sorted[m..];
    assert multiset(sorted) == multiset(sorted[..m]) + multiset(sorted[m..]);
    sorted[..m]
  }

  /** The ranking is a true top-k: its first station is at minimal distance
      over the whole registry, and no station left out is closer than one
      returned. */
  lemma ClosestIsTopK(reg: seq<Station>, dist: (Coord, Coord) -> real, lat: real, lon: real, limit: int)
    ensures var r := ClosestStations(reg, dist, lat, lon, limit);
      forall s | s in r :: s in reg
    ensures var r := ClosestStations(reg, dist, lat, lon, limit);
      |r| > 0 ==> forall s | s in reg ::
        DistanceFrom(dist, lat, lon)(r[0]) <= DistanceFrom(dist, lat, lon)(s)
    ensures var r := ClosestStations(reg, dist, lat, lon, limit);
      forall s, t | s in r && t in reg && t !in r ::
        DistanceFrom(dist, lat, lon)(s) <= DistanceFrom(dist, lat, lon)(t)
  {
    SortedPrefixIsTopK(reg, DistanceFrom(dist, lat, lon), SliceEnd(|reg|, limit));
  }

  /** The default `limit` of 1 yields one station, and `limit=3` yields three,
      whenever the registry is large enough. */
  lemma ClosestDefaultAndThreeLengths(reg: seq<Station>, dist: (Coord, Coord) -> real, lat: real, lon: real)
    requires |reg| >= 3
    ensures |ClosestStations(reg, dist, lat, lon, 1)| == 1
    ensures |ClosestStations(reg, dist, lat, lon, 3)| == 3
  {
  }

  /** Whatever stable sort computes the ranking (Python's is Timsort), the
      result is the same prefix of it. */
  lemma ClosestIsPrefixOfAnyStableSort(reg: seq<Station>, dist: (Coord, Coord) -> real, lat: real, lon: real, limit: int, t: seq<Station>)
    requires IsStableSortOf(t, reg, DistanceFrom(dist, lat, lon))
    ensures |t| == |reg|
    ensures ClosestStations(reg, dist, lat, lon, limit) == t[..SliceEnd(|reg|, limit)]
  {
    StableSortIsSortByKey(t, reg, DistanceFrom(dist, lat, lon));
  }

  /** Stations at equal distance from the query point keep their registry
      order in the ranking. */
  lemma ClosestKeepsTiesInRegistryOrder(reg: seq<Station>, dist: (Coord, Coord) -> real, lat: real, lon: real, limit: int, d: real)
    ensures var r := ClosestStations(reg, dist, lat, lon, limit);
      var key := DistanceFrom(dist, lat, lon);
      exists n | 0 <= n <= |WithKey(reg, key, d)| :: WithKey(r, key, d) == WithKey(reg, key, d)[..n]
  {
    var key := DistanceFrom(dist, lat, lon);
    var sorted := SortByKey(reg, key);
    var m := SliceEnd(|reg|, limit);
    WithKeyOfPrefix(sorted, key, d, m);
  }

  /** Inserting a station whose id is new keeps ids pairwise distinct. */
  lemma {:induction false} InsertKeepsUniqueIds(x: Station, t: seq<Station>, key: Station -> real)
    requires SortedBy(t, key)
    requires UniqueIds(t)
    requires forall y | y in t :: y.id != x.id
    ensures UniqueIds(Insert(x, t, key))
  {
    if |t| == 0 || key(x) <= key(t[0]) {
    } else {
      var rest := Insert(x, t[1..], key);
      InsertKeepsUniqueIds(x, t[1..], key);
      assert forall y | y in rest :: y.id != t[0].id;
    }
  }

  /** Sorting keeps ids pairwise distinct. */
  lemma {:induction false} SortKeepsUniqueIds(s: seq<Station>, key: Station -> real)
    requires UniqueIds(s)
    ensures UniqueIds(SortByKey(s, key))
  {
    if |s| > 0 {
      var rest := SortByKey(s[1..], key);
      SortKeepsUniqueIds(s[1..], key);
      assert forall y | y in rest :: y.id != s[0].id by {
        forall y | y in rest
          ensures y.id != s[0].id
        {
          assert y in multiset(s[1..]);
        }
      }
      InsertKeepsUniqueIds(s[0], rest, key);
    }
  }

  /** With pairwise-distinct registry ids, no station is returned twice. */
  lemma ClosestHasNoRepeats(reg: seq<Station>, dist: (Coord, Coord) -> real, lat: real, lon: real, limit: int)
    requires UniqueIds(reg)
    ensures UniqueIds(ClosestStations(reg, dist, lat, lon, limit))
  {
    SortKeepsUniqueIds(reg, DistanceFrom(dist, lat, lon));
  }
}
