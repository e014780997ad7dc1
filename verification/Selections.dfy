/** What a filtering loop picks: the wanted values, in the order of their places. */
module Selections {
  ghost predicate Increasing(places: seq<int>) {
    forall k, l :: 0 <= k < l < |places| ==> places[k] < places[l]
  }

  /** These are the places of the map, in increasing order, and the values there. */
  ghost predicate ReadOff<T>(places: seq<int>, values: seq<T>, byPlace: map<int, T>) {
    && |places| == |values| && Increasing(places)
    && (forall i :: i in places <==> i in byPlace)
    && forall k :: 0 <= k < |places| ==> places[k] in byPlace && values[k] == byPlace[places[k]]
  }

  /** Each value of the map once, by increasing place, and nothing else. */
  ghost predicate InOrder<T>(values: seq<T>, byPlace: map<int, T>) {
    exists places :: ReadOff(places, values, byPlace)
  }

  ghost predicate Before<T>(byPlace: map<int, T>, n: int) {
    forall i :: i in byPlace ==> i < n
  }

  lemma NothingInOrder<T>(byPlace: map<int, T>)
    requires byPlace == map[]
    ensures InOrder([], byPlace)
  {
    assert ReadOff([], [], byPlace);
  }

  lemma InOrderNext<T>(values: seq<T>, byPlace: map<int, T>, n: int, value: T)
    requires InOrder(values, byPlace) && Before(byPlace, n)
    ensures InOrder(values + [value], byPlace[n := value])
  {
    var places :| ReadOff(places, values, byPlace);
    ReadOffNext(places, values, byPlace, n, value);
  }

  lemma ReadOffNext<T>(places: seq<int>, values: seq<T>, byPlace: map<int, T>, n: int, value: T)
    requires ReadOff(places, values, byPlace) && Before(byPlace, n)
    ensures ReadOff(places + [n], values + [value], byPlace[n := value])
  {
    var longer, more, all := places + [n], values + [value], byPlace[n := value];
    forall k | 0 <= k < |longer| ensures longer[k] in all && more[k] == all[longer[k]] {
      if k < |places| {
        assert longer[k] == places[k] && places[k] in byPlace;
      }
    }
    IncreasingNext(places, n);
    hide Increasing;
    forall i ensures i in longer <==> i in all {
      assert i in longer <==> i in places || i == n;
    }
  }

  lemma IncreasingNext(places: seq<int>, n: int)
    requires Increasing(places) && forall i :: i in places ==> i < n
    ensures Increasing(places + [n])
  {
    forall k | 0 <= k < |places| ensures places[k] < n {
      assert places[k] in places;
    }
  }
}
