# iceweather in Dafny

A verified model of the in-memory logic of `iceweather`, a client library for
the Icelandic Met Office's XML weather service. The library keeps a static
registry of weather stations, looks stations up by name or id, ranks them by
great-circle distance from a point, normalises request arguments into lists
of strings, and flattens the service's XML answers into dictionaries. The
network calls are outside the model. The remaining logic is pure, and this
project states and proves its behaviour.

Modules:

- `Wrappers` (`wrappers.dfy`): `Option`, standing in for Python's `Optional`.
- `Registry` (`registry.dfy`): the `Station` record `{id, name, lat, lon}` and
  the first-match lookups `id_for_station` and `station_for_id`. The registry
  (`STATIONS`) is a parameter `reg`, so the results hold for any registry.
  Properties that need distinct ids assume them (`UniqueIds`). `station_list`
  returns the registry itself and is the identity `StationList`.
- `StableSort` (`stable_sort.dfy`): Python's `sorted(xs, key=f)`, specified as
  a stable sort. The result is in non-decreasing key order, and for each key
  value the elements with that key appear in their original order. The model
  sorts by insertion. `StableSortIsUnique` proves there is only one stable
  sort, so Timsort yields the same sequence.
- `Proximity` (`proximity.dfy`): `closest_stations`, which stably sorts the
  registry by distance and then slices it with `[:limit]`. The distance
  function is a parameter.
- `Args` (`args.dfy`): `_arg_to_str_list`, including Python's `str` on `int`
  and `bool`. A decimal decoder serves as the reference for `str(int)`.
- `Flatten` (`flatten.dfy`): the loops in `observation_for_stations`,
  `forecast_text` and `forecast_for_stations` that turn the parsed XML tree
  into a list of dictionaries. The parsed tree is an input (`Element`).

The service's answer is the dictionary `{"results": [...]}`. The model
returns only the list stored under `"results"`.

## Model

| member | source | states |
|---|---|---|
| Registry.IdForStation | iceweather/weather.py:286-291 | `None` exactly when no record has that exact name; otherwise the id of a record with that name, with no earlier record of that name |
| Registry.StationForId | iceweather/weather.py:294-299 | `None` exactly when no record has that id; otherwise a record with that id, with no earlier record carrying it |
| Registry.StationForIdOfRecord | tests/test_iceweather.py:27 | with distinct ids, looking up a record's own id returns that very record |
| Registry.NameIdRoundTrip | tests/test_iceweather.py:28-29 | with distinct ids, name to id and then id to record always succeeds and returns a record of the same name, even when names repeat |
| Registry.NameIdRoundTripNeedsUniqueIds | iceweather/weather.py:286-299 | without distinct ids the name round trip can fail: two records share id 7, and the second name resolves to the first record |
| StableSort.SortByKey | iceweather/weather.py:279-281 | `sorted(..., key=...)` returns a permutation of its input that is in key order and keeps tied elements in input order |
| StableSort.StableSortIsUnique | iceweather/weather.py:279-281 | any two stable sorts of the same sequence by the same key are equal |
| StableSort.StableSortIsSortByKey | iceweather/weather.py:279-281 | every stable sort, Python's Timsort included, equals the modelled sort |
| StableSort.SortedRunsDetermine | iceweather/weather.py:279-281 | two key-ordered sequences that agree on the order of each key's elements are equal |
| StableSort.SortedPrefixIsTopK | iceweather/weather.py:279-283 | a prefix of the sort comes from the input, starts with a minimum of the whole input, and no element left out has a smaller key than one kept |
| Proximity.ClosestStations | iceweather/weather.py:277-283 | the result has `min(limit, n)` stations for `limit >= 0` and Python-slice length for a negative `limit`; it is in non-decreasing distance order and is a sub-multiset of the registry |
| Proximity.ClosestDefaultAndThreeLengths | tests/test_iceweather.py:199-200 | on a registry of at least three stations, the default `limit` gives one station and `limit=3` gives three |
| Proximity.ClosestIsTopK | iceweather/weather.py:279-283 | every returned station is in the registry, the first is at minimum distance over the whole registry, and no station left out is closer than a returned one |
| Proximity.ClosestIsPrefixOfAnyStableSort | iceweather/weather.py:279-283 | the result is the first `limit` entries of every stable sort of the registry by distance |
| Proximity.ClosestKeepsTiesInRegistryOrder | iceweather/weather.py:279-283 | for each distance, the returned stations at that distance are a prefix of the registry's stations at that distance, in registry order |
| Proximity.ClosestHasNoRepeats | iceweather/weather.py:279-283 | with distinct registry ids, the result never lists a station twice |
| Args.NatToDecimal | iceweather/weather.py:73-75 | `str` of a natural number is non-empty, all digits, and has no leading zero |
| Args.IntToDecimal | iceweather/weather.py:73-75 | `str` of an `int` is canonical: an optional `-`, then digits with no leading zero, never `-0`; it starts with `-` exactly for negative numbers |
| Args.CanonicalIsStr | iceweather/weather.py:73-75 | a canonical numeral is fixed by its value: it equals `str` of the integer it decodes to |
| Args.RendersIsStr | iceweather/weather.py:73-75 | the description of each output string admits exactly one string per element, the one `str` makes |
| Args.DecimalRoundTrip | iceweather/weather.py:73-75 | decoding `str(n)` gives back `n` for every `int` `n` that `str` renders (see `Args.IntToDecimal` under Left out for the digit limit) |
| Args.ArgToStrList | iceweather/weather.py:69-76 | a single `int` or `str` gives a one-element list; an iterable gives one string per element, in order; each string is the canonical numeral of an `int` element, the name of a `bool` element, or a `str` element itself, which is exactly what `str` makes of it whenever `str` returns |
| Flatten.FlattenFields | iceweather/weather.py:143-144 | keys are the initial keys plus every child's tag; each tag maps to the text of its last child, with a missing text read as `""`; an initial key no child overwrites keeps its value |
| Flatten.FlatteningIsUnique | iceweather/weather.py:140-146 | that description fixes the dictionary completely |
| Flatten.FlattenRecord | iceweather/weather.py:262-265 | a text element, like an observation element, flattens to its attributes overwritten by its children's texts, the last write winning |
| Flatten.FlattenRecords | iceweather/weather.py:140-146 | one dictionary per top-level element, in document order, each the flattening of that element; `forecast_text` (lines 261-267) runs the same loop |
| Flatten.ForecastFields | iceweather/weather.py:185-197 | `"forecast"` is always a list, holding one flattened dictionary per `forecast` child, in order; other tags map to their last child's text; attributes no child overwrites keep their value; there are no other keys |
| Flatten.ForecastFlatteningIsUnique | iceweather/weather.py:184-199 | that description fixes the forecast dictionary completely |
| Flatten.ForecastRecords | iceweather/weather.py:184-199 | one forecast dictionary per top-level element, in document order |

## Left out

- HTTP access (`_api_call`), the service URLs, the `<br/>` rewriting and the XML parsing: these are network I/O and library calls. The parsed tree is an input (`Flatten.Element`).
- The `";".join(ids)` that builds the request: it only feeds a URL, and URLs are not modelled.
- `_distance` (haversine): floating-point trigonometry. `closest_stations` takes the distance as an arbitrary function `dist`. The distance's symmetry and its zero at a point itself are therefore not stated.
- Floating point: coordinates and distances are `real`. A NaN distance, which would break Python's sort order, cannot occur in the model.
- `iceweather/stations.py` (the concrete station data) is not part of this model. Every operation takes the registry as a parameter. Checks against the actual data, such as Reykjavík having id 1 or being nearest to its own coordinates, are therefore absent.
- `observation_for_station`, `forecast_for_station`, `observation_for_closest` and `forecast_for_closest`: thin wrappers that call the network.
- Dictionary key order: Python dictionaries remember insertion order, but the model uses maps. Keys and values are modelled, their order is not.
- Args.IntToDecimal: CPython raises `ValueError` from `str` on an `int` of more than 4300 decimal digits (the limit set by `sys.set_int_max_str_digits`). The model renders every `int`, so `ArgToStrList` never fails, where `_arg_to_str_list` raises on such an argument.
- `_arg_to_str_list` on iterables whose elements are not `int`, `bool` or `str`: the type annotation rules them out.
- `scrape.py`, `check_stations.py`, `setup.py` and `iceweather/__init__.py`: the station-scraping tool, a live smoke script, and packaging.

`closest_stations` does not check `limit`: `limit = 0` yields an empty list, and a negative `limit` acts as a Python slice end and drops the last `-limit` stations of the ranking. The model does the same.
