/**
 The station registry: an immutable, ordered sequence of station records
 (`STATIONS` in the library) and the two first-match lookups over it,
 `id_for_station` (by name) and `station_for_id` (by id).

 The registry's concrete contents are not part of this model; every operation
 takes the registry as a parameter `reg`.
 */
module Registry {
  import opened Wrappers

  /** One weather-observing site: `{id, name, lat, lon}`. Coordinates are
      degrees; floating point is modelled by `real`. */
  datatype Station = Station(id: int, name: string, lat: real, lon: real)

  /** No two records of the registry share an id. */
  ghost predicate UniqueIds(reg: seq<Station>) {
    forall i, j | 0 <= i < |reg| && 0 <= j < |reg| && reg[i].id == reg[j].id :: i == j
  }

  /** `station_list`: the registry itself, in registry order. */
  function StationList(reg: seq<Station>): seq<Station> {
    reg
  }

  /** `id_for_station`: the id of the first record, in registry order, whose
      name is exactly `name`; `None` when there is none. */
  function IdForStation(reg: seq<Station>, name: string): (r: Option<int>)
    ensures r.None? <==> forall i | 0 <= i < |reg| :: reg[i].name != name
    ensures r.Some? ==>
      exists i | 0 <= i < |reg| :: reg[i].name == name && reg[i].id == r.value &&
        forall j | 0 <= j < i :: reg[j].name != name
  {
    if |reg| == 0 then None
    else if reg[0].name == name then Some(reg[0].id)
    else
      IdForStation(reg[1..], name)
  }

  /** `station_for_id`: the first record, in registry order, whose id is
      `id`; `None` when there is none. */
  function StationForId(reg: seq<Station>, id: int): (r: Option<Station>)
    ensures r.None? <==> forall i | 0 <= i < |reg| :: reg[i].id != id
    ensures r.Some? ==>
      exists i | 0 <= i < |reg| :: reg[i] == r.value && reg[i].id == id &&
        forall j | 0 <= j < i :: reg[j].id != id
  {
    if |reg| == 0 then None
    else if reg[0].id == id then Some(reg[0])
    else StationForId(reg[1..], id)
  }

  /** With pairwise-distinct ids, looking a record up by its own id yields
      exactly that record. */
  lemma StationForIdOfRecord(reg: seq<Station>, k: int)
    requires UniqueIds(reg)
    requires 0 <= k < |reg|
    ensures StationForId(reg, reg[k].id) == Some(reg[k])
  {
  }

  /** Name-to-id-to-record round trip: for every record, resolving its name to
      an id and that id back to a record gives a record with the same name,
      even when several records share the name (the first one is reached). */
  lemma NameIdRoundTrip(reg: seq<Station>, k: int)
    requires UniqueIds(reg)
    requires 0 <= k < |reg|
    ensures IdForStation(reg, reg[k].name).Some?
    ensures StationForId(reg, IdForStation(reg, reg[k].name).value).Some?
    ensures StationForId(reg, IdForStation(reg, reg[k].name).value).value.name == reg[k].name
  {
    var id := IdForStation(reg, reg[k].name);
    var i :| 0 <= i < |reg| && reg[i].name == reg[k].name && reg[i].id == id.value;
    StationForIdOfRecord(reg, i);
  }

  /** The round trip above needs distinct ids: in a registry where two
      differently named records share an id, the second name resolves to the
      first record. */
  lemma NameIdRoundTripNeedsUniqueIds()
    ensures var reg := [Station(7, "A", 0.0, 0.0), Station(7, "B", 0.0, 0.0)];
      IdForStation(reg, "B") == Some(7) && StationForId(reg, 7) == Some(reg[0]) &&
      reg[0].name != "B"
  {
  }
}
