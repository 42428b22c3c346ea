/** `SortMap` of util/Util.go: the values of a string map, ordered by
    ascending key. */
module SortMap {
  import opened Strings

  /** The least key of a non-empty set of keys. */
  ghost function SetMin(keys: set<string>): (m: string)
    requires keys != {}
    ensures m in keys
    ensures forall k :: k in keys ==> !Less(k, m)
    decreases keys
  {
    var x :| x in keys;
    if keys == {x} then
      LessIrreflexive(x);
      x
    else
      var m := SetMin(keys - {x});
      if Less(x, m) then
        assert forall k :: k in keys ==> !Less(k, x) by {
          forall k | k in keys ensures !Less(k, x) {
            LessIrreflexive(x);
            LessTransitive(k, x, m);
          }
        }
        x
      else
        m
  }

  /** The reference order: the least key first, then the remaining keys in
      the same order. It lists every key exactly once, strictly ascending. */
  ghost function SortedKeys(keys: set<string>): (ks: seq<string>)
    ensures |ks| == |keys|
    ensures multiset(ks) == multiset(keys)
    ensures forall i :: 0 <= i < |ks| ==> ks[i] in keys
    ensures forall i, j :: 0 <= i < j < |ks| ==> Less(ks[i], ks[j])
    decreases keys
  {
    if keys == {} then []
    else
      var m := SetMin(keys);
      var rest := SortedKeys(keys - {m});
      LeastInFront(keys, m, rest);
      [m] + rest
  }

  /** Putting the least key in front of an ascending listing of the other
      keys gives an ascending listing of all of them. */
  lemma LeastInFront(keys: set<string>, m: string, rest: seq<string>)
    requires m in keys && forall k :: k in keys ==> !Less(k, m)
    requires multiset(rest) == multiset(keys - {m})
    requires forall i, j :: 0 <= i < j < |rest| ==> Less(rest[i], rest[j])
    ensures multiset([m] + rest) == multiset(keys)
    ensures forall i :: 0 <= i < |[m] + rest| ==> ([m] + rest)[i] in keys
    ensures forall i, j :: 0 <= i < j < |[m] + rest| ==> Less(([m] + rest)[i], ([m] + rest)[j])
  {
    assert multiset(keys - {m}) + multiset{m} == multiset(keys);
    forall j | 0 <= j < |rest| ensures rest[j] in keys - {m} && Less(m, rest[j]) {
      assert rest[j] in multiset(rest);
      LessTotal(m, rest[j]);
    }
  }

  /** A sorted arrangement of exactly the keys is the reference order. */
  lemma KeysInOrder(keys: set<string>, ks: seq<string>)
    requires Sorted(ks) && multiset(ks) == multiset(keys)
    ensures ks == SortedKeys(keys)
  {
    var ref := SortedKeys(keys);
    forall i, j | 0 <= i < j < |ref| ensures !Less(ref[j], ref[i]) {
      LessAsymmetric(ref[i], ref[j]);
    }
    SortedUnique(ks, ref);
  }

  /** `SortMap`: collects the keys in the map's iteration order, sorts them,
      and for each sorted key scans the map for that key and appends its
      value. The result holds one value per key, the value of the `i`-th
      smallest key at position `i`. */
  method SortMap(mp: map<string, string>) returns (finalList: seq<string>)
    ensures |finalList| == |mp|
    ensures forall i :: 0 <= i < |finalList| ==> finalList[i] == mp[SortedKeys(mp.Keys)[i]]
  {
    // 1. The keys, in an arbitrary order.
    var newMap: seq<string> := [];
    var unvisited := mp.Keys;
    while unvisited != {}
      invariant unvisited <= mp.Keys
      invariant multiset(newMap) + multiset(unvisited) == multiset(mp.Keys)
      decreases unvisited
    {
      var k :| k in unvisited;
      assert multiset(unvisited - {k}) + multiset{k} == multiset(unvisited);
      newMap := newMap + [k];
      unvisited := unvisited - {k};
    }

    // 2. sort.Strings
    newMap := SortStrings(newMap);
    KeysInOrder(mp.Keys, newMap);
    assert forall j :: 0 <= j < |newMap| ==> newMap[j] in mp;

    // 3. The value of each key, found by a scan of the map.
    finalList := LookUpValues(mp, newMap);
  }

  /** The third loop of `SortMap`: for each key in turn, a scan over the map's
      entries (in the map's arbitrary order) that stops at the entry with that
      key and appends its value. */
  method LookUpValues(mp: map<string, string>, newMap: seq<string>) returns (finalList: seq<string>)
    requires forall j :: 0 <= j < |newMap| ==> newMap[j] in mp
    ensures |finalList| == |newMap|
    ensures forall j :: 0 <= j < |newMap| ==> finalList[j] == mp[newMap[j]]
  {
    finalList := [];
    for i := 0 to |newMap|
      invariant |finalList| == i
      invariant forall j :: 0 <= j < i ==> finalList[j] == mp[newMap[j]]
    {
      var s := newMap[i];
      ghost var before := finalList;
      var entries := mp.Keys;
      while entries != {}
        invariant s in entries && entries <= mp.Keys
        invariant finalList == before
        decreases entries
      {
        var k :| k in entries;
        if s == k {
          finalList := finalList + [mp[k]];
          break;
        }
        entries := entries - {k};
      }
      assert finalList == before + [mp[s]];
    }
  }
}
