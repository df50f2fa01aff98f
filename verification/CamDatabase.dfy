/** The in-memory database (src/database/Database.hpp, DBElement.hpp, DBView.hpp) with the indexers that the CA basic
    service adds to it (src/cam/CABasicService.cpp:35-37); every operation is one atomic step. A view is the index
    of the element it locks. */
module CamDatabase {
  import opened CamIndexer
  import opened Options

  datatype Query = ByIndex(first: nat, last: nat) | ByStation(id: nat) | ByLatest(id: nat)

  // ---------------------------------------------------------------- index lists

  predicate Ascending(list: seq<nat>) {
    forall i, j | 0 <= i < j < |list| :: list[i] < list[j]
  }

  predicate Distinct(list: seq<nat>) {
    forall i, j | 0 <= i < j < |list| :: list[i] != list[j]
  }

  /** The place of x in an ascending list. */
  method Insert(list: seq<nat>, x: nat) returns (r: seq<nat>)
    requires Ascending(list)
    ensures Ascending(r) && forall y :: y in r <==> y in list || y == x
  {
    var k := 0;
    while k < |list| && list[k] < x
      invariant k <= |list| && forall j | 0 <= j < k :: list[j] < x
    {
      k := k + 1;
    }
    assert forall j | k <= j < |list| :: list[k] <= list[j];
    if k < |list| && list[k] == x {
      return list;
    }
    r := list[..k] + [x] + list[k..];
    InsertedAt(list, k, x);
  }

  lemma InsertedAt(list: seq<nat>, k: nat, x: nat)
    requires Ascending(list) && k <= |list|
    requires (forall j | 0 <= j < k :: list[j] < x) && (forall j | k <= j < |list| :: x < list[j])
    ensures var r := list[..k] + [x] + list[k..];
            Ascending(r) && forall y :: y in r <==> y in list || y == x
  {
    var r := list[..k] + [x] + list[k..];
    forall i, j | 0 <= i < j < |r|
      ensures r[i] < r[j]
    {
      assert r[i] == (if i < k then list[i] else if i == k then x else list[i - 1]);
      assert r[j] == (if j < k then list[j] else if j == k then x else list[j - 1]);
    }
    assert list == list[..k] + list[k..];
  }

  /** std::sort, std::unique and erase: each index once, in ascending order. */
  method SortUnique(list: seq<nat>) returns (r: seq<nat>)
    ensures Ascending(r) && forall y :: y in r <==> y in list
  {
    r := [];
    for k := 0 to |list|
      invariant Ascending(r) && forall y :: y in r <==> y in list[..k]
    {
      r := Insert(r, list[k]);
      assert list[..k + 1] == list[..k] + [list[k]];
    }
    assert list[..|list|] == list;
  }

  lemma AtMostOne(list: seq<nat>)
    requires Ascending(list) && forall i, j | i in list && j in list :: i == j
    ensures |list| <= 1
  {
    if list != [] {
      assert list[|list| - 1] in list && list[0] in list;
    }
  }

  method Elements(s: set<nat>) returns (list: seq<nat>)
    ensures forall y :: y in list <==> y in s
  {
    list := [];
    var left := s;
    while left != {}
      invariant left <= s && forall y :: y in list <==> y in s - left
      decreases |left|
    {
      var x :| x in left;
      list := list + [x];
      left := left - {x};
    }
  }

  // ---------------------------------------------------------------- counting slots

  function Elems(list: seq<nat>): set<nat> {
    set x | x in list
  }

  lemma {:induction false} DistinctCount(list: seq<nat>)
    requires Distinct(list)
    ensures |Elems(list)| == |list|
    decreases |list|
  {
    if list != [] {
      var n := |list| - 1;
      DistinctCount(list[..n]);
      assert list[n] !in Elems(list[..n]);
      assert list == list[..n] + [list[n]];
      assert Elems(list) == Elems(list[..n]) + {list[n]};
    }
  }

  /** The numbers below n. */
  function Below(n: nat): (s: set<nat>)
    ensures |s| == n && forall i: nat :: i in s <==> i < n
  {
    if n == 0 then {} else Below(n - 1) + {n - 1}
  }

  function LiveIndices(data: seq<Option<Cam>>): set<nat> {
    set i | i in Below(|data|) && data[i].Some?
  }

  lemma LiveCount(data: seq<Option<Cam>>, freeIndices: seq<nat>)
    requires Distinct(freeIndices) && forall i: nat :: i in freeIndices <==> i < |data| && data[i].None?
    ensures |LiveIndices(data)| == |data| - |freeIndices|
  {
    DistinctCount(freeIndices);
    var (live, free) := (LiveIndices(data), Elems(freeIndices));
    assert live !! free;
    assert live + free == Below(|data|);
  }

  // ---------------------------------------------------------------- the database

  class Database {
    var data: seq<Option<Cam>>
    var freeIndices: seq<nat>
    const station: StationIndexer
    const latest: LatestIndexer

    ghost predicate Live(i: nat)
      reads this
    {
      i < |data| && data[i].Some?
    }

    /** The free indices are distinct, in range, and exactly the slots without data. */
    ghost predicate Slots()
      reads this
    {
      Distinct(freeIndices) && forall i: nat :: i in freeIndices <==> i < |data| && data[i].None?
    }

    /** The indexers know exactly the live elements, and the latest ones among them. */
    ghost predicate Indexed()
      reads this, station, latest
    {
      && station.Valid() && latest.Valid()
      && (forall i: nat :: i in station.reverseLookup <==> Live(i))
      && (forall i: nat | Live(i) :: station.reverseLookup[i] == data[i].value.stationID)
      && (forall i <- latest.indexToStationID :: Live(i) && latest.indexToStationID[i] == data[i].value.stationID)
    }

    ghost predicate Valid()
      reads this, station, latest
    {
      Slots() && Indexed()
    }

    /** The answer of a plain scan over all elements; the latest message is the one the log says. */
    ghost predicate Matches(q: Query, i: nat)
      reads this, latest
    {
      && Live(i)
      && match q
         case ByIndex(first, last) => first <= i < last
         case ByStation(id) => data[i].value.stationID == id
         case ByLatest(id) => IsLatest(latest.log, id, i)
    }

    constructor ()
      ensures Valid() && fresh(station) && fresh(latest) && data == []
    {
      data, freeIndices := [], [];
      station := new StationIndexer();
      latest := new LatestIndexer();
    }

    /** getFreeElement: the last free slot, or a new one at the end. */
    method GetFreeElement() returns (index: nat)
      requires Slots()
      modifies this
      ensures !old(Live(index)) && index < |data|
      ensures data == if old(freeIndices) == [] then old(data) + [None] else old(data)
      ensures index == if old(freeIndices) == [] then old(|data|) else old(freeIndices)[|old(freeIndices)| - 1]
      ensures Distinct(freeIndices) && forall i: nat :: i in freeIndices <==> i in old(freeIndices) && i != index
    {
      if |freeIndices| > 0 {
        var n := |freeIndices| - 1;
        index := freeIndices[n];
        ghost var was := freeIndices;
        assert index in was;
        freeIndices := freeIndices[..n];
        assert was == freeIndices + [index];
      } else {
        index := |data|;
        data := data + [None];
      }
    }

    /** insert of a non-null entry; the returned view locks the new element. */
    method Insert(entry: Cam) returns (view: nat)
      requires Valid()
      modifies this, station, latest
      ensures Valid() && !old(Live(view)) && view < |data|
      ensures data == if view < |old(data)| then old(data)[view := Some(entry)] else old(data) + [Some(entry)]
      ensures latest.log == old(latest.log) + [Put(entry.stationID, view)]
    {
      view := GetFreeElement();
      data := data[view := Some(entry)];
      var _ := station.AddData(entry, view);
      var _ := latest.AddData(entry, view);
    }

    /** Writing through a view; nothing is told to the indexers before the view is released. */
    method Modify(view: nat, entry: Cam)
      requires Valid() && Live(view) && entry.stationID == data[view].value.stationID
      modifies this`data
      ensures Valid() && data == old(data)[view := Some(entry)]
    {
      data := data[view := Some(entry)];
    }

    /** The destructor of a view: the data is copied and updateCallback tells every indexer. */
    method Release(view: nat)
      requires Valid() && view < |data|
      modifies station, latest
      ensures Valid()
      ensures latest.log == old(latest.log) + if Live(view) then [Put(data[view].value.stationID, view)] else []
    {
      if data[view].Some? {
        var entry := data[view].value;
        var _ := station.UpdateData(entry, view);
        latest.UpdateData(entry, view);
      }
    }

    /** remove through a view: removeCallback, and a release without data. */
    method Remove(view: nat)
      requires Valid() && Live(view)
      modifies this, station, latest
      ensures Valid() && data == old(data)[view := None]
      ensures latest.log == old(latest.log) + [Removed(view)]
    {
      var entry := data[view].value;
      assert view in station.reverseLookup;
      var call := station.RemoveData(entry, view);
      assert call == Returned;
      latest.RemoveData(view);
      data := data[view := None];
      freeIndices := freeIndices + [view];
    }

    /** count: the number of live elements. */
    method Count() returns (n: nat)
      requires Valid()
      ensures n == |LiveIndices(data)|
    {
      LiveCount(data, freeIndices);
      n := |data| - |freeIndices|;
    }

    /** Which indices each indexer gives for a query that it supports. */
    method Candidates(q: Query) returns (list: seq<nat>)
      requires Valid()
      ensures forall i: nat | Live(i) :: i in list <==> Matches(q, i)
    {
      list := [];
      match q
      case ByIndex(first, last) =>
        var i := first;
        while i < last
          invariant i >= first && forall y: nat :: y in list <==> first <= y < i && y < last
          decreases last - i
        {
          list := list + [i];
          i := i + 1;
        }
      case ByStation(id) =>
        var found := station.GetIndexList(id);
        list := Elements(found);
      case ByLatest(id) =>
        list := latest.GetIndexList(id);
    }

    /** getIndexListUnlocked: the elements that match, each once, in ascending order. */
    method GetIndexList(q: Query) returns (list: seq<nat>)
      requires Valid()
      ensures Ascending(list) && forall i: nat :: i in list <==> Matches(q, i)
    {
      var tmp := Candidates(q);
      list := [];
      for k := 0 to |tmp|
        invariant forall i: nat :: i in list <==> i in tmp[..k] && Live(i)
      {
        if tmp[k] < |data| && data[tmp[k]].Some? {
          list := list + [tmp[k]];
        }
        assert tmp[..k + 1] == tmp[..k] + [tmp[k]];
      }
      assert tmp[..|tmp|] == tmp;
      list := SortUnique(list);
    }

    /** validateElement: the indexer that supports the query still stands by the element. */
    method ValidateElement(q: Query, index: nat) returns (valid: bool)
      requires Valid() && Live(index)
      ensures valid == match q
                       case ByIndex(_, _) => true
                       case ByStation(_) => true
                       case ByLatest(_) => IsLatest(latest.log, data[index].value.stationID, index)
    {
      var entry := data[index].value;
      match q
      case ByIndex(_, _) => valid := true;
      case ByStation(_) => valid := station.IsValid(entry, index);
      case ByLatest(_) => valid := latest.IsValid(entry, index);
    }

    /** get: views on exactly the elements that a scan finds, locked in ascending order. */
    method Get(q: Query) returns (views: seq<nat>)
      requires Valid()
      ensures Ascending(views) && forall i: nat :: i in views <==> Matches(q, i)
    {
      var list := GetIndexList(q);
      views := [];
      for k := 0 to |list|
        invariant views == list[..k]
      {
        var index := list[k];
        assert index in list;
        if data[index].Some? {
          var valid := ValidateElement(q, index);
          LatestHasItsStation(index);
          if valid {
            views := views + [index];
          }
        }
      }
    }

    lemma LatestHasItsStation(i: nat)
      requires Valid()
      ensures forall id: nat | IsLatest(latest.log, id, i) :: Live(i) && data[i].value.stationID == id
    {
      forall id: nat | IsLatest(latest.log, id, i)
        ensures Live(i) && data[i].value.stationID == id
      {
        assert id in latest.stationIDToIndex && latest.stationIDToIndex[id] == i;
      }
    }

    /** At most one element is the latest one of a station. */
    lemma OneLatest(id: nat)
      requires Valid()
      ensures forall i: nat, j: nat | IsLatest(latest.log, id, i) && IsLatest(latest.log, id, j) :: i == j
    {
      forall i: nat, j: nat | IsLatest(latest.log, id, i) && IsLatest(latest.log, id, j)
        ensures i == j
      {
        assert latest.stationIDToIndex[id] == i && latest.stationIDToIndex[id] == j;
      }
    }

    /** tryGetCAM (src/cam/CABasicService.cpp:117-128): at most one view comes back, which is its assertion, and the
        answer is the latest live message of the station; looking it up makes no other message the latest. */
    method TryGetCam(id: nat) returns (cam: Option<Cam>)
      requires Valid()
      modifies station, latest
      ensures Valid()
      ensures cam.Some? <==> exists i: nat :: IsLatest(old(latest.log), id, i)
      ensures forall i: nat | IsLatest(old(latest.log), id, i) :: Live(i) && cam == data[i] && cam.value.stationID == id
      ensures forall s: nat, i: nat :: IsLatest(latest.log, s, i) <==> IsLatest(old(latest.log), s, i)
    {
      var views := Get(ByLatest(id));
      OneLatest(id);
      AtMostOne(views);
      assert |views| <= 1;
      forall i: nat | IsLatest(latest.log, id, i)
        ensures i in views
      {
        LatestHasItsStation(i);
      }
      if |views| == 0 {
        return None;
      }
      var i := views[0];
      assert i in views;
      LatestHasItsStation(i);
      cam := data[i];
      ReleaseKeepsLatest(latest.log, id, i);
      Release(i);
    }

    /** receiveCallback (src/cam/CABasicService.cpp:100-104): the message that has just been stored is found as the
        latest one of its station. */
    method Receive(entry: Cam) returns (index: nat)
      requires Valid()
      modifies this, station, latest
      ensures Valid() && !old(Live(index)) && index < |data|
      ensures data == if index < |old(data)| then old(data)[index := Some(entry)] else old(data) + [Some(entry)]
      ensures IsLatest(latest.log, entry.stationID, index)
      ensures forall s: nat, i: nat | s != entry.stationID ::
                IsLatest(latest.log, s, i) <==> IsLatest(old(latest.log), s, i)
    {
      index := Insert(entry);
      ghost var e := Put(entry.stationID, index);
      Release(index);
      forall s: nat, i: nat
        ensures IsLatest(latest.log, s, i)
                <==> e == Put(s, i) || (s != entry.stationID && IsLatest(old(latest.log), s, i))
      {
        AfterEvent(old(latest.log), e, s, i);
        AfterEvent(old(latest.log) + [e], e, s, i);
      }
    }
  }

  /** Releasing a view leaves the latest messages as they are if and only if the view is on the latest message of
      its station: letting go of an older message, even one only looked at, makes that one the latest. */
  lemma ReleaseKeepsLatest(log: seq<Event>, station: nat, index: nat)
    ensures (forall s: nat, i: nat :: IsLatest(log + [Put(station, index)], s, i) <==> IsLatest(log, s, i))
            <==> IsLatest(log, station, index) && forall i: nat | IsLatest(log, station, i) :: i == index
  {
    var more := log + [Put(station, index)];
    forall s: nat, i: nat
      ensures IsLatest(more, s, i) <==> Put(station, index) == Put(s, i) || (s != station && IsLatest(log, s, i))
    {
      AfterEvent(log, Put(station, index), s, i);
    }
  }

  /** Two messages of one station are received, and the older one is looked at and let go of unchanged: the older
      message is the answer from then on. */
  method LookAtOlder(db: Database, older: Cam, newer: Cam) returns (answer: Option<Cam>)
    requires db.Valid() && older.stationID == newer.stationID
    modifies db, db.station, db.latest
    ensures db.Valid() && answer == Some(older)
  {
    hide IsLatest;
    var i := db.Receive(older);
    var j := db.Receive(newer);
    LookAt(db, i);
    answer := db.TryGetCam(older.stationID);
  }

  /** A view on an element is asked for by its index, and let go of with nothing changed. */
  method LookAt(db: Database, i: nat)
    requires db.Valid() && db.Live(i)
    modifies db.station, db.latest
    ensures db.Valid() && IsLatest(db.latest.log, db.data[i].value.stationID, i)
  {
    hide IsLatest;
    var views := db.Get(ByIndex(i, i + 1));
    assert db.Matches(ByIndex(i, i + 1), i);
    assert i in views;
    ghost var log, station := db.latest.log, db.data[i].value.stationID;
    db.Release(i);
    AfterEvent(log, Put(station, i), station, i);
  }
}
