/**
 * `BTreeMap<i128, i128>` as the macro uses it: a finite map whose
 * entries are visited in ascending key order. Represented by the list of
 * its entries, sorted by strictly increasing key.
 */
module SortedMap {

  predicate KeysIncreasing(s: seq<(int, int)>) {
    forall i, j :: 0 <= i < j < |s| ==> s[i].0 < s[j].0
  }

  type BTreeMap = s: seq<(int, int)> | KeysIncreasing(s) witness []

  function Keys(m: BTreeMap): (r: seq<int>)
    ensures |r| == |m| && forall i :: 0 <= i < |m| ==> r[i] == m[i].0
  {
    seq(|m|, i requires 0 <= i < |m| => m[i].0)
  }

  function KeySet(m: seq<(int, int)>): set<int> {
    set i | 0 <= i < |m| :: m[i].0
  }

  /** The map the entry list denotes. */
  function ToMap(m: BTreeMap): (r: map<int, int>)
    ensures r.Keys == KeySet(m)
    ensures forall i :: 0 <= i < |m| ==> r[m[i].0] == m[i].1
  {
    map i | 0 <= i < |m| :: m[i].0 := m[i].1
  }

  lemma KeySetCons(e: (int, int), s: seq<(int, int)>)
    ensures KeySet([e] + s) == {e.0} + KeySet(s)
  {
    var r := [e] + s;
    forall x | x in KeySet(r) ensures x in {e.0} + KeySet(s) {
      var i :| 0 <= i < |r| && r[i].0 == x;
      if i > 0 { assert s[i - 1].0 == x; }
    }
    forall x | x in KeySet(s) ensures x in KeySet(r) {
      var i :| 0 <= i < |s| && s[i].0 == x;
      assert r[i + 1].0 == x;
    }
    assert r[0].0 == e.0;
  }

  lemma ToMapCons(e: (int, int), s: BTreeMap)
    requires KeysIncreasing([e] + s)
    ensures ToMap([e] + s) == ToMap(s)[e.0 := e.1]
  {
    var r: BTreeMap := [e] + s;
    KeySetCons(e, s);
    assert r[0] == e;
    forall x | x in ToMap(r) ensures ToMap(r)[x] == ToMap(s)[e.0 := e.1][x] {
      var i :| 0 <= i < |r| && r[i].0 == x;
      if i > 0 {
        assert s[i - 1] == r[i];
      }
    }
  }

  lemma ConsIncreasing(e: (int, int), s: BTreeMap)
    requires s != [] ==> e.0 < s[0].0
    ensures KeysIncreasing([e] + s)
  {
    var r := [e] + s;
    forall i, j | 0 <= i < j < |r| ensures r[i].0 < r[j].0 {
      assert r[j] == s[j - 1];
      if i > 0 { assert r[i] == s[i - 1]; } else if j > 1 { assert s[0].0 < s[j - 1].0; }
    }
  }

  /** `BTreeMap::insert`: adds the entry, replacing the value of an existing key. */
  function Insert(m: BTreeMap, k: int, v: int): (r: BTreeMap)
    ensures |r| > 0 && (r[0].0 == k || (m != [] && r[0].0 == m[0].0))
    decreases |m|
  {
    if m == [] then [(k, v)]
    else if k < m[0].0 then
      ConsIncreasing((k, v), m);
      [(k, v)] + m
    else if k == m[0].0 then
      ConsIncreasing((k, v), m[1..]);
      [(k, v)] + m[1..]
    else
      var tail := Insert(m[1..], k, v);
      ConsIncreasing(m[0], tail);
      [m[0]] + tail
  }

  lemma {:induction false} InsertKeys(m: BTreeMap, k: int, v: int)
    ensures KeySet(Insert(m, k, v)) == KeySet(m) + {k}
    decreases |m|
  {
    if m == [] {
      KeySetCons((k, v), []);
    } else {
      var rest: BTreeMap := m[1..];
      assert m == [m[0]] + rest;
      KeySetCons(m[0], rest);
      if k < m[0].0 {
        KeySetCons((k, v), m);
      } else if k == m[0].0 {
        KeySetCons((k, v), rest);
      } else {
        InsertKeys(rest, k, v);
        KeySetCons(m[0], Insert(rest, k, v));
      }
    }
  }

  lemma MapUpdateTwice(m: map<int, int>, k: int, a: int, b: int)
    ensures m[k := a][k := b] == m[k := b]
  {
  }

  lemma MapUpdateSwap(m: map<int, int>, k: int, a: int, j: int, b: int)
    requires k != j
    ensures m[k := a][j := b] == m[j := b][k := a]
  {
  }

  /** Insert at or below the first key of a non-empty map. */
  lemma InsertMapFront(m: BTreeMap, k: int, v: int)
    requires m != [] && k <= m[0].0
    ensures ToMap(Insert(m, k, v)) == ToMap(m)[k := v]
  {
    var rest: BTreeMap := m[1..];
    assert m == [m[0]] + rest;
    if k < m[0].0 {
      ToMapCons((k, v), m);
    } else {
      ToMapCons(m[0], rest);
      ToMapCons((k, v), rest);
      MapUpdateTwice(ToMap(rest), k, m[0].1, v);
    }
  }

  /** A non-empty map is its tail with the first entry added. */
  lemma ToMapFirst(m: BTreeMap)
    requires m != []
    ensures KeysIncreasing(m[1..]) && ToMap(m) == ToMap(m[1..])[m[0].0 := m[0].1]
  {
    var rest: BTreeMap := m[1..];
    assert m == [m[0]] + rest;
    ToMapCons(m[0], rest);
  }

  /** Insert above the first key, given the insertion into the rest. */
  lemma InsertMapBehind(m: BTreeMap, k: int, v: int)
    requires m != [] && k > m[0].0
    requires ToMap(Insert(m[1..], k, v)) == ToMap(m[1..])[k := v]
    ensures ToMap(Insert(m, k, v)) == ToMap(m)[k := v]
  {
    var r := Insert(m, k, v);
    assert r[0] == m[0] && r[1..] == Insert(m[1..], k, v);
    ToMapFirst(m);
    ToMapFirst(r);
    MapUpdateSwap(ToMap(m[1..]), k, v, m[0].0, m[0].1);
  }

  lemma {:induction false} InsertMap(m: BTreeMap, k: int, v: int)
    ensures ToMap(Insert(m, k, v)) == ToMap(m)[k := v]
    decreases |m|
  {
    if m == [] {
      ToMapCons((k, v), []);
    } else if k <= m[0].0 {
      InsertMapFront(m, k, v);
    } else {
      InsertMap(m[1..], k, v);
      InsertMapBehind(m, k, v);
    }
  }
}
