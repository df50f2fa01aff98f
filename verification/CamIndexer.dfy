/** The indexers of the CAM database: by station (src/database/indexer/IDXParameter.hpp) and latest message of a
    station (src/cam/CAMIndexer.hpp). */
module CamIndexer {

  datatype Cam = Cam(stationID: nat, payload: seq<int>)

  /** Return normally, or throw, which changes nothing; or do what the language leaves undefined. */
  datatype Call = Returned | Thrown | Undefined

  // ---------------------------------------------------------------- one-to-one maps

  /** Two maps that are mutual inverses. */
  ghost predicate Inverse(there: map<nat, nat>, back: map<nat, nat>) {
    && (forall s <- there :: there[s] in back && back[there[s]] == s)
    && (forall i <- back :: back[i] in there && there[back[i]] == i)
  }

  // ---------------------------------------------------------------- the log specification

  /** An accepted add or update of an index for a station, or a remove of an index. */
  datatype Event = Put(station: nat, index: nat) | Removed(index: nat)

  /** Entry p put index i for station s, and nothing later put another for s or removed i. */
  ghost predicate LastPut(log: seq<Event>, s: nat, i: nat, p: nat)
    requires p < |log|
  {
    && log[p] == Put(s, i)
    && forall q | p < q < |log| :: log[q] != Removed(i) && !(log[q].Put? && log[q].station == s)
  }

  /** i is the index of the last add or update for s, and has not been removed since. */
  ghost predicate IsLatest(log: seq<Event>, s: nat, i: nat) {
    exists p | 0 <= p < |log| :: LastPut(log, s, i, p)
  }

  /** An event that does not concern i or s leaves the last put where it was. */
  lemma LastPutStays(log: seq<Event>, e: Event, s: nat, i: nat, p: nat)
    requires p < |log|
    ensures LastPut(log + [e], s, i, p)
            <==> LastPut(log, s, i, p) && e != Removed(i) && !(e.Put? && e.station == s)
  {
    var more := log + [e];
    assert more[|log|] == e && forall q | 0 <= q < |log| :: more[q] == log[q];
  }

  lemma AfterEvent(log: seq<Event>, e: Event, s: nat, i: nat)
    ensures IsLatest(log + [e], s, i)
            <==> e == Put(s, i) || (IsLatest(log, s, i) && e != Removed(i) && !(e.Put? && e.station == s))
  {
    var more := log + [e];
    forall p | 0 <= p < |log|
      ensures LastPut(more, s, i, p)
              <==> LastPut(log, s, i, p) && e != Removed(i) && !(e.Put? && e.station == s)
    {
      LastPutStays(log, e, s, i, p);
    }
    assert LastPut(more, s, i, |log|) <==> e == Put(s, i);
  }

  // ---------------------------------------------------------------- IDXCAMLatest

  class LatestIndexer {
    var stationIDToIndex: map<nat, nat>
    var indexToStationID: map<nat, nat>
    ghost var log: seq<Event>

    ghost predicate Inverses()
      reads this
    {
      Inverse(stationIDToIndex, indexToStationID)
    }

    /** The maps are mutual inverses and hold exactly what the log says. */
    ghost predicate Valid()
      reads this
    {
      && Inverses()
      && forall s, i :: (s in stationIDToIndex && stationIDToIndex[s] == i) <==> IsLatest(log, s, i)
    }

    constructor ()
      ensures Valid() && log == [] && stationIDToIndex == map[] && indexToStationID == map[]
    {
      stationIDToIndex, indexToStationID, log := map[], map[], [];
    }

    /** getIndexList: the latest index by the log, or nothing. */
    method GetIndexList(station: nat) returns (list: seq<nat>)
      requires Valid()
      ensures |list| <= 1
      ensures forall i :: i in list <==> IsLatest(log, station, i)
    {
      if station in stationIDToIndex {
        list := [stationIDToIndex[station]];
      } else {
        list := [];
      }
      assert forall i :: i in list <==> station in stationIDToIndex && stationIDToIndex[station] == i;
    }

    /** addData: the new message takes over from the old latest one; an index that is in use is refused. */
    method AddData(entry: Cam, index: nat) returns (call: Call)
      modifies this
      ensures call == if old(index in indexToStationID) then Thrown else Returned
      ensures call.Thrown? ==> log == old(log) && unchanged(this)
      ensures old(Inverses()) ==> Inverses()
      ensures old(Valid()) ==> Valid()
      ensures forall i <- indexToStationID | i != index ::
                i in old(indexToStationID) && indexToStationID[i] == old(indexToStationID)[i]
      ensures call.Returned? ==> log == old(log) + [Put(entry.stationID, index)]
      ensures call.Returned? ==> index in indexToStationID && indexToStationID[index] == entry.stationID
                                 && entry.stationID in stationIDToIndex && stationIDToIndex[entry.stationID] == index
    {
      if index in indexToStationID {
        return Thrown;
      }
      var station := entry.stationID;
      if station in stationIDToIndex {
        var oldIndex := stationIDToIndex[station];
        indexToStationID := indexToStationID - {oldIndex};
        stationIDToIndex := stationIDToIndex - {station};
      }
      indexToStationID := indexToStationID[index := station];
      stationIDToIndex := stationIDToIndex[station := index];
      log := log + [Put(station, index)];
      forall s, i
        ensures IsLatest(log, s, i) <==> if s == station then i == index else IsLatest(old(log), s, i)
      {
        AfterEvent(old(log), Put(station, index), s, i);
      }
      return Returned;
    }

    /** updateData. The inverse maps survive exactly when the index is not in use, or its station stays the same;
        the station of an index in use is never rewritten. */
    method UpdateData(entry: Cam, index: nat)
      modifies this
      ensures var kept := old(index in indexToStationID) ==> old(indexToStationID)[index] == entry.stationID;
              && (old(Inverses()) ==> (Inverses() <==> kept))
              && (old(Valid()) && kept ==> Valid())
      ensures log == old(log) + [Put(entry.stationID, index)]
      ensures forall i <- indexToStationID | i != index ::
                i in old(indexToStationID) && indexToStationID[i] == old(indexToStationID)[i]
      ensures entry.stationID in stationIDToIndex && stationIDToIndex[entry.stationID] == index
      ensures index in indexToStationID
              && indexToStationID[index]
                 == if old(index in indexToStationID) then old(indexToStationID)[index] else entry.stationID
    {
      if index !in indexToStationID {
        var _ := AddData(entry, index);
        return;
      }
      var station := entry.stationID;
      if indexToStationID[index] != station {
        var oldStation := indexToStationID[index];
        stationIDToIndex := stationIDToIndex - {oldStation};
      }
      stationIDToIndex := stationIDToIndex[station := index];
      log := log + [Put(station, index)];
      forall s, i
        ensures IsLatest(log, s, i) <==> if s == station then i == index else IsLatest(old(log), s, i)
      {
        AfterEvent(old(log), Put(station, index), s, i);
      }
    }

    /** removeData: a station whose latest message goes has no latest message, older ones do not come back. */
    method RemoveData(index: nat)
      requires Valid()
      modifies this
      ensures Valid() && log == old(log) + [Removed(index)] && indexToStationID == old(indexToStationID) - {index}
    {
      if index in indexToStationID {
        var station := indexToStationID[index];
        indexToStationID := indexToStationID - {index};
        stationIDToIndex := stationIDToIndex - {station};
      }
      log := log + [Removed(index)];
      forall s, i
        ensures IsLatest(log, s, i) <==> i != index && IsLatest(old(log), s, i)
      {
        AfterEvent(old(log), Removed(index), s, i);
      }
    }

    /** isValid: the message is the latest one of its station. */
    method IsValid(entry: Cam, index: nat) returns (valid: bool)
      requires Valid()
      ensures valid == IsLatest(log, entry.stationID, index)
    {
      valid := index in indexToStationID && indexToStationID[index] == entry.stationID;
      assert valid <==> entry.stationID in stationIDToIndex && stationIDToIndex[entry.stationID] == index;
    }
  }

  /** A message of station 1 that is updated to station 2: it is found for station 2, but its index is still
      booked for station 1, so that it no longer counts as valid, and station 1 has nothing. */
  method StationChange() returns (x: LatestIndexer)
    ensures !x.Inverses()
    ensures 2 in x.stationIDToIndex && x.stationIDToIndex[2] == 0
    ensures 0 in x.indexToStationID && x.indexToStationID[0] == 1
  {
    x := new LatestIndexer();
    var call := x.AddData(Cam(1, []), 0);
    x.UpdateData(Cam(2, []), 0);
  }

  // ---------------------------------------------------------------- IDXParameter, with the station as parameter

  class StationIndexer {
    var indices: map<nat, set<nat>>
    var reverseLookup: map<nat, nat>

    /** An index is filed under a station exactly when the reverse lookup gives that station. */
    ghost predicate Valid()
      reads this
    {
      forall k, i :: (k in indices && i in indices[k]) <==> (i in reverseLookup && reverseLookup[i] == k)
    }

    constructor ()
      ensures Valid() && reverseLookup == map[]
    {
      indices, reverseLookup := map[], map[];
    }

    function Filed(k: nat): set<nat>
      reads this
    {
      if k in indices then indices[k] else {}
    }

    /** getByParameter: the set of the indices filed under a station. */
    method GetIndexList(station: nat) returns (found: set<nat>)
      requires Valid()
      ensures forall i :: i in found <==> i in reverseLookup && reverseLookup[i] == station
    {
      found := Filed(station);
      assert forall i :: i in found <==> station in indices && i in indices[station];
    }

    method AddData(entry: Cam, index: nat) returns (call: Call)
      requires Valid()
      modifies this
      ensures Valid()
      ensures call == if old(index in reverseLookup) then Thrown else Returned
      ensures reverseLookup == if call.Thrown? then old(reverseLookup) else old(reverseLookup)[index := entry.stationID]
    {
      if index in reverseLookup {
        return Thrown;
      }
      var key := entry.stationID;
      indices := indices[key := Filed(key) + {index}];
      reverseLookup := reverseLookup[index := key];
      return Returned;
    }

    method UpdateData(entry: Cam, index: nat) returns (call: Call)
      requires Valid()
      modifies this
      ensures Valid()
      ensures call == if old(index in reverseLookup) then Returned else Thrown
      ensures reverseLookup == if call.Thrown? then old(reverseLookup) else old(reverseLookup)[index := entry.stationID]
    {
      if index !in reverseLookup {
        return Thrown;
      }
      var oldKey, newKey := reverseLookup[index], entry.stationID;
      indices := indices[oldKey := Filed(oldKey) - {index}];
      indices := indices[newKey := Filed(newKey) + {index}];
      reverseLookup := reverseLookup[index := newKey];
      return Returned;
    }

    /** removeData takes the index out from under the station that the message has now. A station that is not known
        is passed over; under a known one, an index that is not filed there makes it erase an end iterator. */
    method RemoveData(entry: Cam, index: nat) returns (call: Call)
      requires Valid()
      modifies this
      ensures !call.Thrown?
      ensures call.Undefined? <==> old(entry.stationID in indices && index !in indices[entry.stationID])
      ensures call.Returned? ==>
                && Valid()
                && (old(entry.stationID in indices) <==> old(index in reverseLookup)
                                                         && old(reverseLookup)[index] == entry.stationID)
                && reverseLookup == if old(entry.stationID in indices) then old(reverseLookup) - {index}
                                    else old(reverseLookup)
    {
      var key := entry.stationID;
      if key in indices {
        if index !in indices[key] {
          return Undefined;
        }
        indices := indices[key := indices[key] - {index}];
        reverseLookup := reverseLookup - {index};
      }
      return Returned;
    }

    method IsValid(entry: Cam, index: nat) returns (valid: bool)
      ensures valid <==> index in reverseLookup && reverseLookup[index] == entry.stationID
    {
      valid := index in reverseLookup && reverseLookup[index] == entry.stationID;
    }
  }
}
