/** The per-circuit join: every circuit gets one summary that counts the
    results of its races ending in one of the dangerous status codes. */
module Aggregation {
  import opened Sequences
  import opened Tables

  /** The fixed status codes treated as dangerous, in the order the
      breakdown lists them. */
  const DangerousStatusIds: seq<int> := [3, 4, 20, 56, 66, 73, 82, 100, 107, 137, 138, 139]

  /** One entry of a circuit's breakdown: a dangerous status code and how
      many of the circuit's results ended with it. */
  datatype Situation = Situation(id: int, count: nat)

  /** The value of `totalCount / totalRaces` in IEEE arithmetic: the exact
      quotient when there is at least one race, NaN for 0/0, Infinity for a
      positive count over no race. */
  datatype Frequency = NaN | Infinity | Ratio(incidents: nat, races: nat)

  /** The record built for one circuit. */
  datatype Summary = Summary(
    circuit: string,
    count: nat,
    frequency: Frequency,
    totalrace: nat,
    country: string,
    lat: string,
    lng: string,
    dangerousSituations: seq<Situation>)

  /** `totalCount / totalRaces` on non-negative integers. */
  function Quotient(count: nat, races: nat): (f: Frequency)
    ensures f.Ratio? <==> races > 0
    ensures f.Ratio? ==> f.incidents == count && f.races == races
    ensures f == NaN <==> count == 0 && races == 0
  {
    if races > 0 then Ratio(count, races)
    else if count == 0 then NaN
    else Infinity
  }

  function AtCircuit(circuitId: int): Race -> bool
  {
    (race: Race) => race.circuitId == circuitId
  }

  /** The races held at `circuit`, in table order. */
  function CircuitRaces(circuit: Circuit, races: seq<Race>): (r: seq<Race>)
    ensures |r| <= |races|
    ensures forall race :: race in r <==> race in races && race.circuitId == circuit.circuitId
  {
    Filter(races, AtCircuit(circuit.circuitId))
  }

  /** `circuitRaces.some(race => race.raceId == raceId)`. */
  function HasRace(circuitRaces: seq<Race>, raceId: int): (b: bool)
    ensures b <==> exists race :: race in circuitRaces && race.raceId == raceId
  {
    Any(circuitRaces, (race: Race) => race.raceId == raceId)
  }

  /** The filter applied to the results for status `id`. */
  function Matches(circuitRaces: seq<Race>, id: int): (m: Result -> bool)
    ensures forall result :: m(result) <==>
      result.statusId == id && exists race :: race in circuitRaces && race.raceId == result.raceId
  {
    (result: Result) => result.statusId == id && HasRace(circuitRaces, result.raceId)
  }

  /** How many results end with status `id` and belong to one of `circuitRaces`. */
  function StatusCount(results: seq<Result>, circuitRaces: seq<Race>, id: int): (n: nat)
    ensures n <= |results|
  {
    |Filter(results, Matches(circuitRaces, id))|
  }

  /** The breakdown over the status codes `ids`, one entry per code, in order. */
  function Situations(ids: seq<int>, circuitRaces: seq<Race>, results: seq<Result>): (s: seq<Situation>)
    ensures |s| == |ids|
    ensures forall k :: 0 <= k < |s| ==> s[k].id == ids[k]
  {
    seq(|ids|, k requires 0 <= k < |ids| => Situation(ids[k], StatusCount(results, circuitRaces, ids[k])))
  }

  /** The left-to-right sum of the breakdown's counts. */
  function TotalCount(situations: seq<Situation>): (total: nat)
    ensures forall k :: 0 <= k < |situations| ==> situations[k].count <= total
    ensures total == 0 <==> forall k :: 0 <= k < |situations| ==> situations[k].count == 0
  {
    if situations == [] then 0
    else TotalCount(situations[..|situations| - 1]) + situations[|situations| - 1].count
  }

  /** The summary of one circuit. */
  function Summarize(circuit: Circuit, races: seq<Race>, results: seq<Result>): (s: Summary)
    ensures s.circuit == circuit.name && s.country == circuit.country
    ensures s.lat == circuit.lat && s.lng == circuit.lng
    ensures |s.dangerousSituations| == |DangerousStatusIds|
    ensures forall k :: 0 <= k < |DangerousStatusIds| ==> s.dangerousSituations[k].id == DangerousStatusIds[k]
    ensures s.count == TotalCount(s.dangerousSituations)
    ensures s.frequency == Quotient(s.count, s.totalrace)
  {
    var circuitRaces := CircuitRaces(circuit, races);
    var situations := Situations(DangerousStatusIds, circuitRaces, results);
    var totalCount := TotalCount(situations);
    var totalRaces := |circuitRaces|;
    Summary(circuit.name, totalCount, Quotient(totalCount, totalRaces), totalRaces,
            circuit.country, circuit.lat, circuit.lng, situations)
  }

  /** The whole aggregation: one summary per circuit, in circuit order. */
  function Aggregate(circuits: seq<Circuit>, races: seq<Race>, results: seq<Result>): (data: seq<Summary>)
    ensures |data| == |circuits|
    ensures forall i :: 0 <= i < |data| ==>
      data[i].circuit == circuits[i].name && data[i].country == circuits[i].country
    ensures forall i :: 0 <= i < |data| ==> data[i] == Summarize(circuits[i], races, results)
  {
    seq(|circuits|, i requires 0 <= i < |circuits| => Summarize(circuits[i], races, results))
  }

  // ---------------------------------------------------------------------
  // Reference definitions: the join stated directly over the tables.

  /** Some race row of circuit `circuitId` carries the result's race id. */
  ghost predicate Attached(result: Result, races: seq<Race>, circuitId: int)
  {
    exists j :: 0 <= j < |races| && races[j].circuitId == circuitId && races[j].raceId == result.raceId
  }

  /** The indices of the result rows whose status is one of `ids` and that
      are attached to circuit `circuitId`. */
  ghost function JoinedIndices(results: seq<Result>, races: seq<Race>, circuitId: int, ids: seq<int>): set<int>
  {
    set i | 0 <= i < |results| && results[i].statusId in ids && Attached(results[i], races, circuitId)
  }

  /** The indices of the result rows attached to circuit `circuitId`. */
  ghost function AttachedIndices(results: seq<Result>, races: seq<Race>, circuitId: int): set<int>
  {
    set i | 0 <= i < |results| && Attached(results[i], races, circuitId)
  }

  ghost predicate Distinct(ids: seq<int>)
  {
    forall a, b :: 0 <= a < b < |ids| ==> ids[a] != ids[b]
  }

  // ---------------------------------------------------------------------
  // Properties of the join.

  lemma MatchesIsAttached(circuit: Circuit, races: seq<Race>, id: int, result: Result)
    ensures Matches(CircuitRaces(circuit, races), id)(result)
      <==> result.statusId == id && Attached(result, races, circuit.circuitId)
  {
    var cr := CircuitRaces(circuit, races);
    if Attached(result, races, circuit.circuitId) {
      var j :| 0 <= j < |races| && races[j].circuitId == circuit.circuitId && races[j].raceId == result.raceId;
      assert races[j] in cr;
    }
  }

  /** The count for status `id` is the number of result rows with that
      status whose race id is the race id of some race of the circuit; a
      row is counted once however many race rows share its race id. */
  lemma StatusCountIsJoin(circuit: Circuit, races: seq<Race>, results: seq<Result>, id: int)
    ensures StatusCount(results, CircuitRaces(circuit, races), id)
      == |JoinedIndices(results, races, circuit.circuitId, [id])|
  {
    var p := Matches(CircuitRaces(circuit, races), id);
    FilterCount(results, p);
    forall i | 0 <= i < |results|
      ensures p(results[i]) <==> results[i].statusId in [id] && Attached(results[i], races, circuit.circuitId)
    {
      MatchesIsAttached(circuit, races, id, results[i]);
    }
    assert IndicesWhere(results, p) == JoinedIndices(results, races, circuit.circuitId, [id]);
  }

  /** Each breakdown entry of a summary is the join count of its status. */
  lemma SituationIsJoin(circuit: Circuit, races: seq<Race>, results: seq<Result>, k: int)
    requires 0 <= k < |DangerousStatusIds|
    ensures Summarize(circuit, races, results).dangerousSituations[k].count
      == |JoinedIndices(results, races, circuit.circuitId, [DangerousStatusIds[k]])|
  {
    StatusCountIsJoin(circuit, races, results, DangerousStatusIds[k]);
  }

  /** Summing the breakdown over distinct codes counts each joined result
      whose status is among them exactly once. */
  lemma {:induction false} TotalOverIds(ids: seq<int>, circuit: Circuit, races: seq<Race>, results: seq<Result>)
    requires Distinct(ids)
    ensures TotalCount(Situations(ids, CircuitRaces(circuit, races), results))
      == |JoinedIndices(results, races, circuit.circuitId, ids)|
  {
    if ids != [] {
      var n := |ids| - 1;
      var cr := CircuitRaces(circuit, races);
      var cid := circuit.circuitId;
      assert Situations(ids, cr, results)[..n] == Situations(ids[..n], cr, results);
      TotalOverIds(ids[..n], circuit, races, results);
      StatusCountIsJoin(circuit, races, results, ids[n]);
      var before := JoinedIndices(results, races, cid, ids[..n]);
      var last := JoinedIndices(results, races, cid, [ids[n]]);
      assert ids == ids[..n] + [ids[n]];
      assert JoinedIndices(results, races, cid, ids) == before + last;
      assert before * last == {};
    }
  }

  /** The dangerous codes are twelve distinct codes, 3 the smallest and 139
      the largest. */
  lemma DangerousStatusIdsDistinct()
    ensures |DangerousStatusIds| == 12 && Distinct(DangerousStatusIds)
    ensures forall k :: 0 <= k < |DangerousStatusIds| ==> 3 <= DangerousStatusIds[k] <= 139
  {
  }

  /** A summary's total is the number of result rows attached to the
      circuit whose status is dangerous. */
  lemma TotalCountIsJoin(circuit: Circuit, races: seq<Race>, results: seq<Result>)
    ensures Summarize(circuit, races, results).count
      == |JoinedIndices(results, races, circuit.circuitId, DangerousStatusIds)|
  {
    DangerousStatusIdsDistinct();
    TotalOverIds(DangerousStatusIds, circuit, races, results);
  }

  /** The total never exceeds the number of results attached to the circuit. */
  lemma TotalCountBounded(circuit: Circuit, races: seq<Race>, results: seq<Result>)
    ensures Summarize(circuit, races, results).count <= |AttachedIndices(results, races, circuit.circuitId)|
  {
    TotalCountIsJoin(circuit, races, results);
    var joined := JoinedIndices(results, races, circuit.circuitId, DangerousStatusIds);
    var attached := AttachedIndices(results, races, circuit.circuitId);
    assert joined <= attached;
    assert attached == joined + (attached - joined);
  }

  /** A dangerous status that no result of the circuit's races carries has
      a count of zero. */
  lemma AbsentStatusCountsZero(circuit: Circuit, races: seq<Race>, results: seq<Result>, k: int)
    requires 0 <= k < |DangerousStatusIds|
    requires forall i :: 0 <= i < |results| && Attached(results[i], races, circuit.circuitId)
               ==> results[i].statusId != DangerousStatusIds[k]
    ensures Summarize(circuit, races, results).dangerousSituations[k].count == 0
  {
    SituationIsJoin(circuit, races, results, k);
    assert JoinedIndices(results, races, circuit.circuitId, [DangerousStatusIds[k]]) == {};
  }

  /** `totalrace` is the number of race rows held at the circuit. */
  lemma TotalRacesIsRaceCount(circuit: Circuit, races: seq<Race>, results: seq<Result>)
    ensures Summarize(circuit, races, results).totalrace
      == |set j | 0 <= j < |races| && races[j].circuitId == circuit.circuitId|
  {
    FilterCount(races, AtCircuit(circuit.circuitId));
    assert IndicesWhere(races, AtCircuit(circuit.circuitId))
      == set j | 0 <= j < |races| && races[j].circuitId == circuit.circuitId;
  }

  /** A result can only be attached to a circuit that has races. */
  lemma AttachedNeedsRace(circuit: Circuit, races: seq<Race>, result: Result)
    ensures Attached(result, races, circuit.circuitId) ==> CircuitRaces(circuit, races) != []
  {
    if Attached(result, races, circuit.circuitId) {
      var j :| 0 <= j < |races| && races[j].circuitId == circuit.circuitId && races[j].raceId == result.raceId;
      assert races[j] in CircuitRaces(circuit, races);
    }
  }

  /** A circuit without races has no incidents and a NaN frequency; with
      races its frequency is the exact quotient. Infinity never arises. */
  lemma FrequencyCases(circuit: Circuit, races: seq<Race>, results: seq<Result>)
    ensures var s := Summarize(circuit, races, results);
      && s.frequency != Infinity
      && (s.totalrace == 0 ==> s.count == 0 && s.frequency == NaN)
      && (s.totalrace > 0 ==> s.frequency == Ratio(s.count, s.totalrace))
  {
    var s := Summarize(circuit, races, results);
    if s.totalrace == 0 {
      TotalCountBounded(circuit, races, results);
      forall i | 0 <= i < |results|
        ensures !Attached(results[i], races, circuit.circuitId)
      {
        AttachedNeedsRace(circuit, races, results[i]);
      }
      assert AttachedIndices(results, races, circuit.circuitId) == {};
    }
  }

  /** A zero-race circuit has a zero count for every dangerous status. */
  lemma ZeroRaceCircuit(circuit: Circuit, races: seq<Race>, results: seq<Result>, k: int)
    requires Summarize(circuit, races, results).totalrace == 0
    requires 0 <= k < |DangerousStatusIds|
    ensures Summarize(circuit, races, results).dangerousSituations[k].count == 0
  {
    forall i | 0 <= i < |results|
      ensures !Attached(results[i], races, circuit.circuitId)
    {
      AttachedNeedsRace(circuit, races, results[i]);
    }
    AbsentStatusCountsZero(circuit, races, results, k);
  }

  /** A result row whose status is not dangerous changes no summary. */
  lemma NonDangerousResultIgnored(circuit: Circuit, races: seq<Race>, before: seq<Result>, r: Result, after: seq<Result>)
    requires r.statusId !in DangerousStatusIds
    ensures Summarize(circuit, races, before + [r] + after) == Summarize(circuit, races, before + after)
  {
    var cr := CircuitRaces(circuit, races);
    var with := Situations(DangerousStatusIds, cr, before + [r] + after);
    var without := Situations(DangerousStatusIds, cr, before + after);
    forall k | 0 <= k < |DangerousStatusIds|
      ensures with[k] == without[k]
    {
      var p := Matches(cr, DangerousStatusIds[k]);
      FilterConcat(before + [r], after, p);
      FilterConcat(before, [r], p);
      FilterConcat(before, after, p);
      FilterNone([r], p);
    }
    assert with == without;
  }

  /** The same holds of the whole aggregation. */
  lemma NonDangerousResultIgnoredByAggregate(circuits: seq<Circuit>, races: seq<Race>, before: seq<Result>, r: Result, after: seq<Result>)
    requires r.statusId !in DangerousStatusIds
    ensures Aggregate(circuits, races, before + [r] + after) == Aggregate(circuits, races, before + after)
  {
    forall i | 0 <= i < |circuits|
      ensures Summarize(circuits[i], races, before + [r] + after) == Summarize(circuits[i], races, before + after)
    {
      NonDangerousResultIgnored(circuits[i], races, before, r, after);
    }
  }

  /** A second race row of the circuit with a race id it already has adds
      one to `totalrace` and changes no incident count. */
  lemma DuplicateRaceRowCountsOnce(circuit: Circuit, races: seq<Race>, results: seq<Result>, j: int)
    requires 0 <= j < |races| && races[j].circuitId == circuit.circuitId
    ensures var s := Summarize(circuit, races, results);
      var s' := Summarize(circuit, races + [races[j]], results);
      s'.dangerousSituations == s.dangerousSituations && s'.count == s.count && s'.totalrace == s.totalrace + 1
  {
    var races' := races + [races[j]];
    var cid := circuit.circuitId;
    forall i | 0 <= i < |results|
      ensures Attached(results[i], races', cid) <==> Attached(results[i], races, cid)
    {
      if Attached(results[i], races', cid) {
        var m :| 0 <= m < |races'| && races'[m].circuitId == cid && races'[m].raceId == results[i].raceId;
        if m == |races| {
          assert races'[m] == races[j];
        } else {
          assert races'[m] == races[m];
        }
      }
      if Attached(results[i], races, cid) {
        var m :| 0 <= m < |races| && races[m].circuitId == cid && races[m].raceId == results[i].raceId;
        assert races'[m] == races[m];
      }
    }
    forall k | 0 <= k < |DangerousStatusIds|
      ensures Summarize(circuit, races', results).dangerousSituations[k]
        == Summarize(circuit, races, results).dangerousSituations[k]
    {
      SituationIsJoin(circuit, races, results, k);
      SituationIsJoin(circuit, races', results, k);
      assert JoinedIndices(results, races', cid, [DangerousStatusIds[k]])
        == JoinedIndices(results, races, cid, [DangerousStatusIds[k]]);
    }
    assert races'[..|races|] == races;
  }
}
