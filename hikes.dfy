/**
 * Location resolution at read time: `process_hikes` walks the list of
 * records and, in place, replaces every location that is not yet a pair
 * with the geocoder's answer for it. Reading the cache file is left to the
 * caller; the geocoding service is an oracle that answers each query text
 * with a fixed response and logs the queries it receives.
 */
module Hikes {
  import opened Wrappers
  import opened HikeRecord

  /** One GeoJSON feature of a forward-geocoding answer: its `geometry.coordinates`, longitude first. */
  datatype Feature = Feature(coordinates: seq<real>)

  /** The service's answer: the HTTP status and the features of its GeoJSON body. */
  datatype Response = Response(status: int, features: seq<Feature>)

  /**
   * How `_get_lat_lon` fails: `raise_for_status` on a 4xx or 5xx status,
   * an index error on an empty feature list, an unpacking error when the
   * coordinates are not exactly two.
   */
  datatype GeocodeError = HttpError(status: int) | NoFeatures | NotAPair

  /** The geocoding service: a fixed answer per query text, and the queries sent so far. */
  class Geocoder {
    const answer: string -> Response
    var queries: seq<string>

    constructor (answer: string -> Response)
      ensures this.answer == answer && queries == []
    {
      this.answer := answer;
      queries := [];
    }

    /** `forward(query)`: one request to the service. */
    method Forward(query: string) returns (response: Response)
      modifies this
      ensures response == answer(query)
      ensures queries == old(queries) + [query]
    {
      response := answer(query);
      queries := queries + [query];
    }
  }

  /** The statuses on which `raise_for_status` raises. */
  predicate IsErrorStatus(status: int) {
    400 <= status < 600
  }

  /** `(latitude, longitude)` from the first feature's `[longitude, latitude]`, or the error raised. */
  function LatLon(response: Response): (r: Result<(real, real), GeocodeError>)
    ensures r.Ok? <==> && !IsErrorStatus(response.status) && response.features != []
                       && |response.features[0].coordinates| == 2
    ensures r.Ok? ==> response.features[0].coordinates == [r.value.1, r.value.0]
    ensures IsErrorStatus(response.status) ==> r == Err(HttpError(response.status))
  {
    if IsErrorStatus(response.status) then Err(HttpError(response.status))
    else if response.features == [] then Err(NoFeatures)
    else
      var coordinates := response.features[0].coordinates;
      if |coordinates| != 2 then Err(NotAPair)
      else
        var longitude, latitude := coordinates[0], coordinates[1];
        Ok((latitude, longitude))
  }

  /** `_get_lat_lon`: one query to the service, its answer turned into `(latitude, longitude)`. */
  method GetLatLon(location: string, geocoder: Geocoder) returns (r: Result<(real, real), GeocodeError>)
    modifies geocoder
    ensures geocoder.queries == old(geocoder.queries) + [location]
    ensures r == LatLon(geocoder.answer(location))
  {
    var response := geocoder.Forward(location);
    r := LatLon(response);
  }

  /** What one iteration of `process_hikes` makes of a record, or the error it raises. */
  function Resolve(hike: Hike, answer: string -> Response): (r: Result<Hike, GeocodeError>)
    ensures r.Ok? ==> r.value.location.Coordinates?
    ensures r.Ok? ==> r.value == hike.(location := r.value.location)
    ensures hike.location.Coordinates? ==> r == Ok(hike)
    ensures r.Ok? && hike.location.Place? ==>
      var latLon := LatLon(answer(hike.location.name));
      latLon.Ok? && r.value.location == Coordinates(Number(latLon.value.0), Number(latLon.value.1))
  {
    match hike.location
    case Coordinates(_, _) => Ok(hike)
    case Place(text) =>
      match LatLon(answer(text))
      case Err(e) => Err(e)
      case Ok((latitude, longitude)) => Ok(hike.(location := Coordinates(Number(latitude), Number(longitude))))
  }

  /**
   * The list `process_hikes` leaves behind and the error it raises, if any:
   * records are resolved front to back and the first failure stops the walk.
   */
  function Process(hikes: seq<Hike>, answer: string -> Response): (seq<Hike>, Option<GeocodeError>) {
    if hikes == [] then ([], None)
    else
      match Resolve(hikes[0], answer)
      case Err(e) => (hikes, Some(e))
      case Ok(h) =>
        var rest := Process(hikes[1..], answer);
        ([h] + rest.0, rest.1)
  }

  /** The query a record costs: its place name, or nothing for a coordinate pair. */
  function QueryOf(hike: Hike): (r: seq<string>)
    ensures |r| <= 1
  {
    if hike.location.Place? then [hike.location.name] else []
  }

  /** The queries `process_hikes` sends: the place names in order, up to and including the first that fails. */
  function Queries(hikes: seq<Hike>, answer: string -> Response): seq<string> {
    if hikes == [] then []
    else
      match hikes[0].location
      case Coordinates(_, _) => Queries(hikes[1..], answer)
      case Place(text) =>
        [text] + (if Resolve(hikes[0], answer).Err? then [] else Queries(hikes[1..], answer))
  }

  /** The place names of the records, in order. */
  function PlaceNames(hikes: seq<Hike>): (r: seq<string>)
    ensures |r| <= |hikes|
  {
    if hikes == [] then [] else QueryOf(hikes[0]) + PlaceNames(hikes[1..])
  }

  /** Past a record that resolves, `Process` and `Queries` go on with the rest. */
  lemma ProcessAdvance(hikes: seq<Hike>, i: nat, answer: string -> Response)
    requires i < |hikes| && Resolve(hikes[i], answer).Ok?
    ensures Process(hikes[i..], answer).0 == [Resolve(hikes[i], answer).value] + Process(hikes[i + 1..], answer).0
    ensures Process(hikes[i..], answer).1 == Process(hikes[i + 1..], answer).1
    ensures Queries(hikes[i..], answer) == QueryOf(hikes[i]) + Queries(hikes[i + 1..], answer)
  {
    assert hikes[i..][0] == hikes[i] && hikes[i..][1..] == hikes[i + 1..];
  }

  /** At a record that fails, `Process` stops with the rest untouched and that record's query is the last. */
  lemma ProcessStops(hikes: seq<Hike>, i: nat, answer: string -> Response)
    requires i < |hikes| && Resolve(hikes[i], answer).Err?
    ensures Process(hikes[i..], answer) == (hikes[i..], Some(Resolve(hikes[i], answer).error))
    ensures Queries(hikes[i..], answer) == QueryOf(hikes[i])
  {
    assert hikes[i..][0] == hikes[i];
  }

  /** Resolution changes only locations, and never a location that is already a pair. */
  lemma {:induction false} ProcessFrame(hikes: seq<Hike>, answer: string -> Response)
    ensures var after := Process(hikes, answer).0;
      && |after| == |hikes|
      && forall k :: 0 <= k < |hikes| ==>
           && after[k] == hikes[k].(location := after[k].location)
           && (hikes[k].location.Coordinates? ==> after[k] == hikes[k])
  {
    if hikes != [] {
      ProcessFrame(hikes[1..], answer);
      match Resolve(hikes[0], answer)
      case Err(_) =>
      case Ok(h) =>
        var after := Process(hikes, answer).0;
        forall k | 0 <= k < |hikes|
          ensures after[k] == hikes[k].(location := after[k].location)
          ensures hikes[k].location.Coordinates? ==> after[k] == hikes[k]
        {
          if k > 0 {
            assert after[k] == Process(hikes[1..], answer).0[k - 1];
          }
        }
    }
  }

  /** The walk succeeds exactly when every record resolves, and then each record is its resolution. */
  lemma {:induction false} ProcessSucceeds(hikes: seq<Hike>, answer: string -> Response)
    ensures Process(hikes, answer).1.None? <==> forall k :: 0 <= k < |hikes| ==> Resolve(hikes[k], answer).Ok?
    ensures Process(hikes, answer).1.None? ==>
      && |Process(hikes, answer).0| == |hikes|
      && forall k :: 0 <= k < |hikes| ==>
           && Resolve(hikes[k], answer) == Ok(Process(hikes, answer).0[k])
           && Process(hikes, answer).0[k].location.Coordinates?
    ensures Process(hikes, answer).1.None? ==> Queries(hikes, answer) == PlaceNames(hikes)
  {
    if hikes != [] {
      ProcessSucceeds(hikes[1..], answer);
      match Resolve(hikes[0], answer)
      case Err(_) =>
      case Ok(h) =>
        if Process(hikes, answer).1.None? {
          var after := Process(hikes, answer).0;
          forall k | 0 <= k < |hikes|
            ensures Resolve(hikes[k], answer) == Ok(after[k])
          {
            if k > 0 {
              assert hikes[k] == hikes[1..][k - 1];
            }
          }
        } else {
          var k :| 0 <= k < |hikes[1..]| && Resolve(hikes[1..][k], answer).Err?;
          assert Resolve(hikes[k + 1], answer).Err?;
        }
    }
  }

  /** Record `k` is the first one that does not resolve. */
  ghost predicate FailsAt(hikes: seq<Hike>, answer: string -> Response, k: int) {
    && 0 <= k < |hikes|
    && Resolve(hikes[k], answer).Err?
    && forall j :: 0 <= j < k ==> Resolve(hikes[j], answer).Ok?
  }

  /** A walk that fails has a first record that does not resolve. */
  lemma {:induction false} ProcessFails(hikes: seq<Hike>, answer: string -> Response)
    requires Process(hikes, answer).1.Some?
    ensures exists k :: FailsAt(hikes, answer, k)
  {
    match Resolve(hikes[0], answer)
    case Err(_) =>
      assert FailsAt(hikes, answer, 0);
    case Ok(_) =>
      ProcessFails(hikes[1..], answer);
      var k :| FailsAt(hikes[1..], answer, k);
      forall j | 0 <= j < k + 1
        ensures Resolve(hikes[j], answer).Ok?
      {
        if j > 0 {
          assert hikes[j] == hikes[1..][j - 1];
        }
      }
      assert FailsAt(hikes, answer, k + 1);
  }

  /**
   * A walk whose first unresolvable record is `k` raises that record's
   * error: the records before it are resolved, it and the rest are as they
   * were, and its place name was the last query sent.
   */
  lemma {:induction false} ProcessFailsAt(hikes: seq<Hike>, answer: string -> Response, k: int)
    requires FailsAt(hikes, answer, k)
    ensures Process(hikes, answer).1 == Some(Resolve(hikes[k], answer).error)
    ensures |Process(hikes, answer).0| == |hikes|
    ensures forall j :: 0 <= j < k ==> Resolve(hikes[j], answer) == Ok(Process(hikes, answer).0[j])
    ensures Process(hikes, answer).0[k..] == hikes[k..]
    decreases k
  {
    if k == 0 {
      assert hikes[..0] == [];
    } else {
      assert Resolve(hikes[0], answer).Ok?;
      assert FailsAt(hikes[1..], answer, k - 1) by {
        forall j | 0 <= j < k - 1
          ensures Resolve(hikes[1..][j], answer).Ok?
        {
          assert hikes[1..][j] == hikes[j + 1];
        }
      }
      ProcessFailsAt(hikes[1..], answer, k - 1);
      var result, rest := Process(hikes, answer), Process(hikes[1..], answer);
      assert result.0 == [Resolve(hikes[0], answer).value] + rest.0;
      forall j | 0 <= j < k
        ensures Resolve(hikes[j], answer) == Ok(result.0[j])
      {
        if j > 0 {
          assert hikes[j] == hikes[1..][j - 1];
        }
      }
      assert result.0[k..] == rest.0[k - 1..];
      assert hikes[1..][k - 1..] == hikes[k..];
    }
  }

  /** A walk whose first unresolvable record is `k` queries the place names up to and including that record's. */
  lemma {:induction false} QueriesFailAt(hikes: seq<Hike>, answer: string -> Response, k: int)
    requires FailsAt(hikes, answer, k)
    ensures Queries(hikes, answer) == PlaceNames(hikes[..k]) + QueryOf(hikes[k])
    decreases k
  {
    if k == 0 {
      assert hikes[..0] == [];
    } else {
      var rest := hikes[1..];
      FailsAtTail(hikes, answer, k);
      QueriesFailAt(rest, answer, k - 1);
      QueriesStep(hikes, answer);
      PlaceNamesStep(hikes, k);
      assert rest[k - 1] == hikes[k];
    }
  }

  /** A first failure past the head is a first failure, one place earlier, of the tail. */
  lemma FailsAtTail(hikes: seq<Hike>, answer: string -> Response, k: int)
    requires FailsAt(hikes, answer, k) && 0 < k
    ensures FailsAt(hikes[1..], answer, k - 1)
  {
    forall j | 0 <= j < k - 1
      ensures Resolve(hikes[1..][j], answer).Ok?
    {
      assert hikes[1..][j] == hikes[j + 1];
    }
  }

  /** Past a head that resolves, the queries are the head's query followed by the tail's. */
  lemma QueriesStep(hikes: seq<Hike>, answer: string -> Response)
    requires hikes != [] && Resolve(hikes[0], answer).Ok?
    ensures Queries(hikes, answer) == QueryOf(hikes[0]) + Queries(hikes[1..], answer)
  {
    if hikes[0].location.Coordinates? {
      assert QueryOf(hikes[0]) + Queries(hikes[1..], answer) == Queries(hikes[1..], answer);
    }
  }

  /** The place names of a non-empty prefix are the head's query followed by those of the tail's prefix. */
  lemma PlaceNamesStep(hikes: seq<Hike>, k: int)
    requires 0 < k <= |hikes|
    ensures PlaceNames(hikes[..k]) == QueryOf(hikes[0]) + PlaceNames(hikes[1..][..k - 1])
  {
    assert hikes[..k][0] == hikes[0] && hikes[..k][1..] == hikes[1..][..k - 1];
  }

  /** A list whose locations are all pairs is left alone and costs no query. */
  lemma {:induction false} ProcessResolved(hikes: seq<Hike>, answer: string -> Response)
    requires forall k :: 0 <= k < |hikes| ==> hikes[k].location.Coordinates?
    ensures Process(hikes, answer) == (hikes, None)
    ensures Queries(hikes, answer) == []
  {
    if hikes != [] {
      ProcessResolved(hikes[1..], answer);
      assert [hikes[0]] + hikes[1..] == hikes;
    }
  }

  /** Running the walk again over a list it resolved changes nothing and sends no query. */
  lemma ProcessIdempotent(hikes: seq<Hike>, answer: string -> Response)
    requires Process(hikes, answer).1.None?
    ensures Process(Process(hikes, answer).0, answer) == Process(hikes, answer)
    ensures Queries(Process(hikes, answer).0, answer) == []
  {
    ProcessSucceeds(hikes, answer);
    ProcessResolved(Process(hikes, answer).0, answer);
  }

  /**
   * The walk has handled the first `i` records of `input`: the array holds
   * `current`, whose first `i` records are what `Process` made of them and
   * whose rest is as it was, and the log went from `sent` to `queries`,
   * which together with the queries still to come is everything `Queries`
   * predicts.
   */
  ghost predicate WalkedTo(input: seq<Hike>, current: seq<Hike>, i: int, answer: string -> Response,
                           sent: seq<string>, queries: seq<string>) {
    && 0 <= i <= |input| == |current|
    && current[i..] == input[i..]
    && Process(input, answer).0 == current[..i] + Process(input[i..], answer).0
    && Process(input, answer).1 == Process(input[i..], answer).1
    && sent + Queries(input, answer) == queries + Queries(input[i..], answer)
  }

  /** Resolving record `i` in place, after its query, carries the walk one record further. */
  lemma WalkStep(input: seq<Hike>, current: seq<Hike>, i: int, answer: string -> Response,
                 sent: seq<string>, queries: seq<string>)
    requires WalkedTo(input, current, i, answer, sent, queries) && i < |input| && Resolve(input[i], answer).Ok?
    ensures WalkedTo(input, current[i := Resolve(input[i], answer).value], i + 1, answer, sent, queries + QueryOf(input[i]))
  {
    var next := current[i := Resolve(input[i], answer).value];
    ProcessAdvance(input, i, answer);
    assert next[..i + 1] == current[..i] + [Resolve(input[i], answer).value];
    assert next[i + 1..] == current[i + 1..] == input[i + 1..] by {
      assert current[i + 1..] == current[i..][1..];
    }
    assert queries + Queries(input[i..], answer) == (queries + QueryOf(input[i])) + Queries(input[i + 1..], answer);
  }

  /** At a record that fails, the walk ends with the array as it stands, that record's error, and its query last. */
  lemma WalkStop(input: seq<Hike>, current: seq<Hike>, i: int, answer: string -> Response,
                 sent: seq<string>, queries: seq<string>)
    requires WalkedTo(input, current, i, answer, sent, queries) && i < |input| && Resolve(input[i], answer).Err?
    ensures Process(input, answer) == (current, Some(Resolve(input[i], answer).error))
    ensures sent + Queries(input, answer) == queries + QueryOf(input[i])
  {
    ProcessStops(input, i, answer);
    assert current == current[..i] + current[i..];
  }

  /** The body of the loop in `process_hikes` for record `i`: its location resolved in place, or the error raised. */
  method ResolveInPlace(hikes: array<Hike>, i: int, geocoder: Geocoder) returns (failure: Option<GeocodeError>)
    requires 0 <= i < hikes.Length
    modifies hikes, geocoder
    ensures geocoder.queries == old(geocoder.queries) + QueryOf(old(hikes[i]))
    ensures Resolve(old(hikes[i]), geocoder.answer).Ok? ==>
      failure.None? && hikes[..] == old(hikes[..])[i := Resolve(old(hikes[i]), geocoder.answer).value]
    ensures Resolve(old(hikes[i]), geocoder.answer).Err? ==>
      failure == Some(Resolve(old(hikes[i]), geocoder.answer).error) && hikes[..] == old(hikes[..])
  {
    var hike := hikes[i];
    if !hike.location.Coordinates? {
      var latLon := GetLatLon(hike.location.name, geocoder);
      if latLon.Err? {
        return Some(latLon.error);
      }
      hikes[i] := hike.(location := Coordinates(Number(latLon.value.0), Number(latLon.value.1)));
    }
    failure := None;
  }

  /** `process_hikes`: resolves the list in place and returns the same list, or raises the first error. */
  method ProcessHikes(hikes: array<Hike>, geocoder: Geocoder) returns (r: Result<array<Hike>, GeocodeError>)
    modifies hikes, geocoder
    ensures hikes[..] == Process(old(hikes[..]), geocoder.answer).0
    ensures r.Ok? <==> Process(old(hikes[..]), geocoder.answer).1.None?
    ensures r.Ok? ==> r.value == hikes
    ensures r.Err? ==> Process(old(hikes[..]), geocoder.answer).1 == Some(r.error)
    ensures geocoder.queries == old(geocoder.queries) + Queries(old(hikes[..]), geocoder.answer)
  {
    ghost var input, answer := hikes[..], geocoder.answer;
    ghost var sent := geocoder.queries;
    ghost var current := input;
    var i := 0;
    assert input[0..] == input && current[..0] == [];
    while i < hikes.Length
      invariant WalkedTo(input, current, i, answer, sent, geocoder.queries)
      invariant hikes[..] == current && geocoder.answer == answer
    {
      assert hikes[i] == input[i] by {
        assert input[i..][0] == current[i..][0];
      }
      ghost var queries := geocoder.queries;
      var failure := ResolveInPlace(hikes, i, geocoder);
      if failure.Some? {
        WalkStop(input, current, i, answer, sent, queries);
        return Err(failure.value);
      }
      WalkStep(input, current, i, answer, sent, queries);
      current := current[i := Resolve(input[i], answer).value];
      i := i + 1;
    }
    assert input[i..] == [] && current[..i] == current;
    return Ok(hikes);
  }
}
