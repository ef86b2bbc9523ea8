/**
 * A JavaScript `Map`, as MobX-State-Tree maps also behave: entries in
 * insertion order, each key at most once.  `set` on a present key replaces
 * the value in place; on a new key it appends; `delete` drops the entry.
 */
module OrderedMaps {
  import opened Wrappers

  type Entries<K, V> = seq<(K, V)>

  /** `Array.from(m.keys())`. */
  function Keys<K, V>(m: Entries<K, V>): (r: seq<K>)
    ensures |r| == |m|
    ensures forall i :: 0 <= i < |m| ==> r[i] == m[i].0
  {
    if m == [] then [] else [m[0].0] + Keys(m[1..])
  }

  ghost predicate UniqueKeys<K, V>(m: Entries<K, V>)
  {
    forall i, j :: 0 <= i < j < |m| ==> m[i].0 != m[j].0
  }

  /** No entry has key `k`. */
  ghost predicate Absent<K, V>(m: Entries<K, V>, k: K)
  {
    forall i :: 0 <= i < |m| ==> m[i].0 != k
  }

  /** Where key `k` sits, or -1 when it is absent. */
  function IndexOf<K(==), V>(m: Entries<K, V>, k: K): (r: int)
    ensures -1 <= r < |m|
    ensures r >= 0 ==> m[r].0 == k && Absent(m[..r], k)
    ensures r < 0 ==> Absent(m, k)
  {
    if m == [] then -1
    else if m[0].0 == k then 0
    else
      var r := IndexOf(m[1..], k);
      assert forall j :: 1 <= j < |m| ==> m[1..][j - 1] == m[j];
      if r < 0 then -1
      else
        assert m[..r + 1] == [m[0]] + m[1..][..r];
        r + 1
  }

  /** With keys unique, the entry at `i` is where its key sits. */
  lemma IndexOfAt<K, V>(m: Entries<K, V>, i: nat)
    requires UniqueKeys(m) && i < |m|
    ensures IndexOf(m, m[i].0) == i
  {
  }

  /** `m.get(k)`. */
  function Get<K(==), V>(m: Entries<K, V>, k: K): (r: Option<V>)
    ensures r.None? <==> Absent(m, k)
    ensures r.Some? ==> (k, r.value) in m
  {
    var i := IndexOf(m, k);
    if i < 0 then None else Some(m[i].1)
  }

  /** `m.set(k, v)`: in place when the key is present, else appended. */
  function Put<K(==), V>(m: Entries<K, V>, k: K, v: V): (r: Entries<K, V>)
    ensures Absent(m, k) ==> r == m + [(k, v)]
    ensures !Absent(m, k) ==> |r| == |m|
    ensures forall i :: 0 <= i < |m| ==> r[i].0 == m[i].0
    ensures forall i :: 0 <= i < |r| ==> r[i] in m || r[i] == (k, v)
  {
    var i := IndexOf(m, k);
    if i < 0 then m + [(k, v)] else m[i := (k, v)]
  }

  /** The entries without the one at `i`. */
  function Drop<K, V>(m: Entries<K, V>, i: nat): (r: Entries<K, V>)
    requires i < |m|
    ensures |r| == |m| - 1
    ensures forall x :: 0 <= x < i ==> r[x] == m[x]
    ensures forall x :: i <= x < |r| ==> r[x] == m[x + 1]
    ensures forall x :: 0 <= x < |r| ==> r[x] in m
  {
    var r := m[..i] + m[i + 1..];
    assert forall x :: 0 <= x < |r| ==> r[x] == m[if x < i then x else x + 1];
    r
  }

  /** `m.delete(k)`. */
  function Remove<K(==), V>(m: Entries<K, V>, k: K): (r: Entries<K, V>)
    ensures !Absent(m, k) ==> |r| == |m| - 1
    ensures Absent(m, k) ==> r == m
    ensures forall i :: 0 <= i < |r| ==> r[i] in m
  {
    var i := IndexOf(m, k);
    if i < 0 then m else Drop(m, i)
  }

  /** What one entry becomes under `g`: dropped, or kept under its key with the new value. */
  function Mapped<K, V>(e: (K, V), g: V -> Option<V>): Entries<K, V>
  {
    match g(e.1)
    case None => []
    case Some(w) => [(e.0, w)]
  }

  /**
   * A pass over the entries that deletes each entry `g` maps to `None` and
   * replaces, in place, the value of each one it maps to `Some`.
   */
  function MapValues<K, V>(m: Entries<K, V>, g: V -> Option<V>): (r: Entries<K, V>)
    ensures |r| <= |m|
  {
    if m == [] then [] else Mapped(m[0], g) + MapValues(m[1..], g)
  }

  /** Each entry of a pass comes from an entry of the input, and each entry `g` keeps is there. */
  lemma {:induction false} MapValuesMembers<K, V>(m: Entries<K, V>, g: V -> Option<V>)
    ensures forall i :: 0 <= i < |MapValues(m, g)| ==>
              exists j :: 0 <= j < |m| && m[j].0 == MapValues(m, g)[i].0 && g(m[j].1) == Some(MapValues(m, g)[i].1)
    ensures forall j :: 0 <= j < |m| && g(m[j].1).Some? ==> (m[j].0, g(m[j].1).value) in MapValues(m, g)
  {
    if m != [] {
      MapValuesMembers(m[1..], g);
      var rest := MapValues(m[1..], g);
      var r := MapValues(m, g);
      var h := |Mapped(m[0], g)|;
      assert r == Mapped(m[0], g) + rest;
      forall i | 0 <= i < |r|
        ensures exists j :: 0 <= j < |m| && m[j].0 == r[i].0 && g(m[j].1) == Some(r[i].1)
      {
        if i < h {
          assert m[0].0 == r[i].0 && g(m[0].1) == Some(r[i].1);
        } else {
          assert r[i] == rest[i - h];
          var j :| 0 <= j < |m[1..]| && m[1..][j].0 == rest[i - h].0 && g(m[1..][j].1) == Some(rest[i - h].1);
          assert m[j + 1] == m[1..][j];
        }
      }
      forall j | 0 <= j < |m| && g(m[j].1).Some?
        ensures (m[j].0, g(m[j].1).value) in r
      {
        if j > 0 {
          assert m[j] == m[1..][j - 1];
          assert (m[j].0, g(m[j].1).value) in rest;
        }
      }
    } else {
      assert MapValues(m, g) == [];
    }
  }

  /** How many values pass `p`. */
  function CountWhere<K, V>(m: Entries<K, V>, p: V -> bool): nat
  {
    if m == [] then 0 else (if p(m[0].1) then 1 else 0) + CountWhere(m[1..], p)
  }

  /** Nothing passes exactly when the count is zero. */
  lemma {:induction false} CountWhereZero<K, V>(m: Entries<K, V>, p: V -> bool)
    ensures CountWhere(m, p) == 0 <==> forall i :: 0 <= i < |m| ==> !p(m[i].1)
  {
    if m != [] {
      CountWhereZero(m[1..], p);
      assert forall i :: 1 <= i < |m| ==> m[1..][i - 1] == m[i];
    }
  }

  /** The first value that passes `p`: `Array.prototype.find` over the values. */
  function FirstWhere<K, V>(m: Entries<K, V>, p: V -> bool): (r: Option<V>)
    ensures r.Some? ==> p(r.value)
    ensures r.Some? ==> exists i :: 0 <= i < |m| && m[i].1 == r.value && forall j :: 0 <= j < i ==> !p(m[j].1)
    ensures r.None? <==> forall i :: 0 <= i < |m| ==> !p(m[i].1)
  {
    if m == [] then None
    else if p(m[0].1) then Some(m[0].1)
    else
      var r := FirstWhere(m[1..], p);
      assert forall i :: 1 <= i < |m| ==> m[1..][i - 1] == m[i];
      assert r.Some? ==> exists i :: 0 <= i < |m| && m[i].1 == r.value && forall j :: 0 <= j < i ==> !p(m[j].1) by {
        if r.Some? {
          var i :| 0 <= i < |m[1..]| && m[1..][i].1 == r.value && forall j :: 0 <= j < i ==> !p(m[1..][j].1);
          assert m[i + 1].1 == r.value;
        }
      }
      r
  }

  /** The values that pass `p`, in order: `Array.from(m.values()).filter(p)`. */
  function ValuesWhere<K, V>(m: Entries<K, V>, p: V -> bool): (r: seq<V>)
    ensures |r| == CountWhere(m, p)
    ensures forall x :: 0 <= x < |r| ==> p(r[x])
    ensures r == [] <==> forall i :: 0 <= i < |m| ==> !p(m[i].1)
  {
    if m == [] then []
    else
      var rest := ValuesWhere(m[1..], p);
      assert forall i :: 1 <= i < |m| ==> m[1..][i - 1] == m[i];
      (if p(m[0].1) then [m[0].1] else []) + rest
  }

  /**
   * The filter is exactly the passing values in entry order: its elements
   * sit at increasing positions of `m`, and every passing position is one
   * of them.
   */
  lemma {:induction false} ValuesWhereInOrder<K, V>(m: Entries<K, V>, p: V -> bool) returns (idx: seq<nat>)
    ensures |idx| == |ValuesWhere(m, p)|
    ensures forall x :: 0 <= x < |idx| ==> idx[x] < |m| && ValuesWhere(m, p)[x] == m[idx[x]].1
    ensures forall x, y :: 0 <= x < y < |idx| ==> idx[x] < idx[y]
    ensures forall j :: 0 <= j < |m| && p(m[j].1) ==> j in idx
  {
    if m == [] {
      idx := [];
    } else {
      var n := |m| - 1;
      var init := ValuesWhereInOrder(m[..n], p);
      ValuesWhereAppend(m[..n], [m[n]], p);
      assert m[..n] + [m[n]] == m;
      assert [m[n]][1..] == [];
      assert ValuesWhere([m[n]], p) == (if p(m[n].1) then [m[n].1] else []) + ValuesWhere([m[n]][1..], p);
      var tail: seq<nat> := if p(m[n].1) then [n] else [];
      idx := init + tail;
      assert ValuesWhere(m, p) == ValuesWhere(m[..n], p) + (if p(m[n].1) then [m[n].1] else []);
      var r := ValuesWhere(m, p);
      forall x | 0 <= x < |idx|
        ensures idx[x] < |m| && r[x] == m[idx[x]].1
      {
        if x < |init| {
          assert idx[x] == init[x] && m[..n][init[x]] == m[init[x]];
          assert r[x] == ValuesWhere(m[..n], p)[x];
        }
      }
      forall j | 0 <= j < |m| && p(m[j].1)
        ensures j in idx
      {
        if j < n {
          assert m[..n][j] == m[j];
          assert j in init;
        }
      }
    }
  }

  /** Filtering keeps the order of the entries: the filter of a concatenation is the concatenation of the filters. */
  lemma {:induction false} ValuesWhereAppend<K, V>(a: Entries<K, V>, b: Entries<K, V>, p: V -> bool)
    ensures ValuesWhere(a + b, p) == ValuesWhere(a, p) + ValuesWhere(b, p)
  {
    if a == [] {
      assert a + b == b;
    } else {
      assert (a + b)[0] == a[0];
      assert (a + b)[1..] == a[1..] + b;
      ValuesWhereAppend(a[1..], b, p);
    }
  }

  // ---------------------------------------------------------------- maps of records keyed by their identifier

  /** Every value is stored once, under its own identifier: an MST map of a model with an identifier. */
  ghost predicate KeyedBy<K, V>(m: Entries<K, V>, id: V -> K)
  {
    UniqueKeys(m) && forall i :: 0 <= i < |m| ==> m[i].0 == id(m[i].1)
  }

  /** A per-entry step that never changes an identifier. */
  ghost predicate KeepsId<K, V(!new)>(g: V -> Option<V>, id: V -> K)
  {
    forall v :: g(v).Some? ==> id(g(v).value) == id(v)
  }

  lemma KeyedByPut<K, V>(m: Entries<K, V>, v: V, id: V -> K)
    requires KeyedBy(m, id)
    ensures KeyedBy(Put(m, id(v), v), id)
  {
    UniqueKeysPut(m, id(v), v);
  }

  lemma KeyedByRemove<K, V>(m: Entries<K, V>, k: K, id: V -> K)
    requires KeyedBy(m, id)
    ensures KeyedBy(Remove(m, k), id)
  {
    UniqueKeysRemove(m, k);
  }

  lemma KeyedByMapValues<K, V(!new)>(m: Entries<K, V>, g: V -> Option<V>, id: V -> K)
    requires KeyedBy(m, id) && KeepsId(g, id)
    ensures KeyedBy(MapValues(m, g), id)
  {
    UniqueKeysMapValues(m, g);
    MapValuesMembers(m, g);
  }

  /** The value stored under `k` has identifier `k`. */
  lemma KeyedByGet<K, V>(m: Entries<K, V>, k: K, id: V -> K)
    requires KeyedBy(m, id)
    ensures Get(m, k).Some? ==> id(Get(m, k).value) == k
  {
  }

  /** `items.forEach(v => m.set(id(v), v))`: each value stored under its identifier, one after the other. */
  function PutAll<K(==), V>(m: Entries<K, V>, items: seq<V>, id: V -> K): Entries<K, V>
  {
    if items == [] then m
    else
      var last := items[|items| - 1];
      Put(PutAll(m, items[..|items| - 1], id), id(last), last)
  }

  /** The last of `items` whose identifier is `k`, if any. */
  function LastWithId<K(==), V>(items: seq<V>, id: V -> K, k: K): (r: Option<V>)
    ensures r.Some? ==> r.value in items && id(r.value) == k
    ensures r.None? <==> forall j :: 0 <= j < |items| ==> id(items[j]) != k
  {
    if items == [] then None
    else if id(items[|items| - 1]) == k then Some(items[|items| - 1])
    else
      var r := LastWithId(items[..|items| - 1], id, k);
      assert forall j :: 0 <= j < |items| - 1 ==> items[..|items| - 1][j] == items[j];
      r
  }

  /** After storing `items` one by one, a key holds the last item with that identifier, or what it held before. */
  lemma {:induction false} GetPutAll<K, V>(m: Entries<K, V>, items: seq<V>, id: V -> K, k: K)
    ensures Get(PutAll(m, items, id), k) ==
              if LastWithId(items, id, k).Some? then LastWithId(items, id, k) else Get(m, k)
  {
    if items != [] {
      var last := items[|items| - 1];
      GetPutAll(m, items[..|items| - 1], id, k);
      GetPut(PutAll(m, items[..|items| - 1], id), id(last), last, k);
    }
  }

  /**
   * Storing `items` keeps every earlier entry's key where it was and adds
   * new keys only at the end; every entry is an earlier one or an item.
   */
  lemma {:induction false} PutAllKeepsOrder<K, V>(m: Entries<K, V>, items: seq<V>, id: V -> K)
    ensures |m| <= |PutAll(m, items, id)| <= |m| + |items|
    ensures forall i :: 0 <= i < |m| ==> PutAll(m, items, id)[i].0 == m[i].0
    ensures forall i :: 0 <= i < |PutAll(m, items, id)| ==>
              PutAll(m, items, id)[i] in m || PutAll(m, items, id)[i].1 in items
  {
    if items != [] {
      var init := items[..|items| - 1];
      PutAllKeepsOrder(m, init, id);
      var before := PutAll(m, init, id);
      var last := items[|items| - 1];
      assert forall v :: v in init ==> v in items;
      assert PutAll(m, items, id) == Put(before, id(last), last);
    }
  }

  lemma {:induction false} KeyedByPutAll<K, V>(m: Entries<K, V>, items: seq<V>, id: V -> K)
    requires KeyedBy(m, id)
    ensures KeyedBy(PutAll(m, items, id), id)
  {
    if items != [] {
      KeyedByPutAll(m, items[..|items| - 1], id);
      KeyedByPut(PutAll(m, items[..|items| - 1], id), items[|items| - 1], id);
    }
  }

  /**
   * Moving an entry from one map to another (`delete` then `set` under the
   * same key) takes it out of the first and puts it in the second: it is
   * not copied, and the two maps hold one entry fewer between them unless
   * the second already had that key.
   */
  lemma MoveEntry<K, V>(q: Entries<K, V>, s: Entries<K, V>, k: K, v: V)
    requires UniqueKeys(q) && !Absent(q, k)
    ensures Get(Remove(q, k), k) == None && Get(Put(s, k, v), k) == Some(v)
    ensures Absent(s, k) ==> |Remove(q, k)| + |Put(s, k, v)| == |q| + |s|
    ensures !Absent(s, k) ==> |Remove(q, k)| + |Put(s, k, v)| == |q| + |s| - 1
  {
    GetRemove(q, k, k);
    GetPut(s, k, v, k);
  }

  // ---------------------------------------------------------------- lookups after an operation

  /** After `set`, the key holds the new value and every other key is as before. */
  lemma GetPut<K, V>(m: Entries<K, V>, k: K, v: V, j: K)
    ensures Get(Put(m, k, v), j) == if j == k then Some(v) else Get(m, j)
  {
    var r := Put(m, k, v);
    var i := IndexOf(m, k);
    if j == k {
      if i < 0 {
        assert r[|m|] == (k, v);
        assert IndexOf(r, k) == |m| by {
          assert forall x :: 0 <= x < |m| ==> r[x] == m[x];
        }
      } else {
        assert r == m[i := (k, v)];
        assert IndexOf(r, k) == i by {
          assert forall x :: 0 <= x < i ==> r[..i][x] == m[..i][x];
        }
      }
    } else {
      SameIndexOf(m, r, j, i);
    }
  }

  /** The first entry holding `k` is where `IndexOf` finds it. */
  lemma {:induction false} IndexOfFirst<K, V>(m: Entries<K, V>, k: K, a: nat)
    requires a < |m| && m[a].0 == k
    requires forall x :: 0 <= x < a ==> m[x].0 != k
    ensures IndexOf(m, k) == a
  {
    if a > 0 {
      IndexOfFirst(m[1..], k, a - 1);
    }
  }

  /** Changing only the entry at `i`, whose key is not `j`, or appending one, leaves where `j` sits. */
  lemma SameIndexOf<K, V>(m: Entries<K, V>, r: Entries<K, V>, j: K, i: int)
    requires |m| <= |r| <= |m| + 1
    requires forall x :: 0 <= x < |m| && x != i ==> r[x] == m[x]
    requires 0 <= i < |m| ==> r[i].0 == m[i].0 && m[i].0 != j
    requires |r| == |m| + 1 ==> r[|m|].0 != j
    ensures IndexOf(r, j) == IndexOf(m, j)
    ensures IndexOf(m, j) >= 0 ==> r[IndexOf(m, j)] == m[IndexOf(m, j)]
  {
    var a := IndexOf(m, j);
    if a >= 0 {
      assert r[a] == m[a];
      forall x | 0 <= x < a
        ensures r[x].0 != j
      {
        assert m[..a][x] == m[x];
      }
      IndexOfFirst(r, j, a);
    } else {
      assert Absent(r, j);
    }
  }

  lemma UniqueKeysPut<K, V>(m: Entries<K, V>, k: K, v: V)
    requires UniqueKeys(m)
    ensures UniqueKeys(Put(m, k, v))
  {
  }

  /** After `delete`, the key is gone and every other key is as before. */
  lemma GetRemove<K, V>(m: Entries<K, V>, k: K, j: K)
    requires UniqueKeys(m)
    ensures Get(Remove(m, k), j) == if j == k then None else Get(m, j)
  {
    var i := IndexOf(m, k);
    if i >= 0 {
      var r := Remove(m, k);
      var a := IndexOf(m, j);
      if j == k {
        assert Absent(r, k) by {
          forall x | 0 <= x < |r|
            ensures r[x].0 != k
          {
            if x >= i {
              assert r[x] == m[x + 1];
            }
          }
        }
      } else if a >= 0 {
        var a' := if a < i then a else a - 1;
        assert r[a'] == m[a];
        UniqueKeysRemove(m, k);
        IndexOfAt(r, a');
      } else {
        assert Absent(r, j) by {
          forall x | 0 <= x < |r|
            ensures r[x].0 != j
          {
            assert r[x] in m;
          }
        }
      }
    }
  }

  lemma UniqueKeysRemove<K, V>(m: Entries<K, V>, k: K)
    requires UniqueKeys(m)
    ensures UniqueKeys(Remove(m, k))
  {
    var i := IndexOf(m, k);
    if i >= 0 {
      var r := Remove(m, k);
      forall a, b | 0 <= a < b < |r|
        ensures r[a].0 != r[b].0
      {
        var a' := if a < i then a else a + 1;
        var b' := if b < i then b else b + 1;
        assert r[a] == m[a'] && r[b] == m[b'];
      }
    }
  }

  /** With keys unique, no entry after the first holds the first one's key. */
  lemma UniqueTail<K, V>(m: Entries<K, V>)
    requires UniqueKeys(m) && m != []
    ensures UniqueKeys(m[1..]) && Absent(m[1..], m[0].0)
  {
    forall a, b | 0 <= a < b < |m[1..]|
      ensures m[1..][a].0 != m[1..][b].0
    {
      assert m[1..][a] == m[a + 1] && m[1..][b] == m[b + 1];
    }
    forall a | 0 <= a < |m[1..]|
      ensures m[1..][a].0 != m[0].0
    {
      assert m[1..][a] == m[a + 1];
    }
  }

  /** A key absent before a pass of `MapValues` is absent after it. */
  lemma {:induction false} AbsentMapValues<K, V>(m: Entries<K, V>, g: V -> Option<V>, k: K)
    requires Absent(m, k)
    ensures Absent(MapValues(m, g), k)
  {
    if m != [] {
      assert Absent(m[1..], k) by {
        forall x | 0 <= x < |m[1..]|
          ensures m[1..][x].0 != k
        {
          assert m[1..][x] == m[x + 1];
        }
      }
      AbsentMapValues(m[1..], g, k);
      var rest := MapValues(m[1..], g);
      var r := Mapped(m[0], g) + rest;
      forall x | 0 <= x < |r|
        ensures r[x].0 != k
      {
        if x >= |Mapped(m[0], g)| {
          assert r[x] == rest[x - |Mapped(m[0], g)|];
        }
      }
    }
  }

  /** An entry whose key the rest lacks, in front of entries with unique keys, keeps keys unique. */
  lemma UniqueCons<K, V>(e: (K, V), m: Entries<K, V>)
    requires UniqueKeys(m) && Absent(m, e.0)
    ensures UniqueKeys([e] + m)
  {
    var r := [e] + m;
    forall a, b | 0 <= a < b < |r|
      ensures r[a].0 != r[b].0
    {
      assert r[b] == m[b - 1];
      if a > 0 {
        assert r[a] == m[a - 1];
      }
    }
  }

  /** A pass of `MapValues` keeps keys unique. */
  lemma {:induction false} UniqueKeysMapValues<K, V>(m: Entries<K, V>, g: V -> Option<V>)
    requires UniqueKeys(m)
    ensures UniqueKeys(MapValues(m, g))
  {
    if m != [] {
      UniqueTail(m);
      UniqueKeysMapValues(m[1..], g);
      var rest := MapValues(m[1..], g);
      AbsentMapValues(m[1..], g, m[0].0);
      if g(m[0].1).Some? {
        UniqueCons((m[0].0, g(m[0].1).value), rest);
      } else {
        assert MapValues(m, g) == rest;
      }
    }
  }

  /** After a pass of `MapValues`, each key holds what `g` made of its value, or is gone. */
  lemma GetMapValues<K, V>(m: Entries<K, V>, g: V -> Option<V>, k: K)
    requires UniqueKeys(m)
    ensures Get(MapValues(m, g), k) == if Get(m, k).Some? then g(Get(m, k).value) else None
  {
    var r := MapValues(m, g);
    UniqueKeysMapValues(m, g);
    MapValuesMembers(m, g);
    var a, b := IndexOf(m, k), IndexOf(r, k);
    if b >= 0 {
      var x :| 0 <= x < |m| && m[x].0 == r[b].0 && g(m[x].1) == Some(r[b].1);
      IndexOfAt(m, x);
    }
  }

  /** One more entry looked at by a counting loop. */
  lemma {:induction false} CountWhereSnoc<K, V>(m: Entries<K, V>, e: (K, V), p: V -> bool)
    ensures CountWhere(m + [e], p) == CountWhere(m, p) + (if p(e.1) then 1 else 0)
  {
    if m == [] {
      assert [] + [e] == [e];
    } else {
      assert (m + [e])[1..] == m[1..] + [e];
      CountWhereSnoc(m[1..], e, p);
    }
  }

  /** One more entry looked at by a `MapValues` loop. */
  lemma {:induction false} MapValuesSnoc<K, V>(m: Entries<K, V>, e: (K, V), g: V -> Option<V>)
    ensures MapValues(m + [e], g) == MapValues(m, g) + Mapped(e, g)
  {
    if m == [] {
      assert [] + [e] == [e];
    } else {
      assert (m + [e])[1..] == m[1..] + [e];
      MapValuesSnoc(m[1..], e, g);
    }
  }

  /** The entry a searching loop stops at is the first that passes. */
  lemma {:induction false} FirstWhereAt<K, V>(m: Entries<K, V>, p: V -> bool, i: nat)
    requires i < |m| && p(m[i].1)
    requires forall j :: 0 <= j < i ==> !p(m[j].1)
    ensures FirstWhere(m, p) == Some(m[i].1)
  {
    if i > 0 {
      FirstWhereAt(m[1..], p, i - 1);
    }
  }

  /** Deleting the entry a loop has reached: the entries around it close up. */
  lemma RemoveMiddle<K, V>(a: Entries<K, V>, e: (K, V), b: Entries<K, V>)
    requires Absent(a, e.0)
    ensures Remove(a + [e] + b, e.0) == a + b
  {
    var m := a + [e] + b;
    assert m[|a|] == e;
    assert m[..|a|] == a;
    assert m[|a| + 1..] == b;
  }

  /** Replacing the value of the entry a loop has reached, in place. */
  lemma PutMiddle<K, V>(a: Entries<K, V>, e: (K, V), b: Entries<K, V>, w: V)
    requires Absent(a, e.0)
    ensures Put(a + [e] + b, e.0, w) == a + [(e.0, w)] + b
  {
    var m := a + [e] + b;
    assert m[|a|] == e;
    assert m[..|a|] == a;
  }

  /** One turn of a `MapValues` loop over a snapshot `m`: deleting or updating the current entry. */
  lemma MapValuesStep<K, V>(m: Entries<K, V>, i: nat, g: V -> Option<V>)
    requires UniqueKeys(m) && i < |m|
    ensures g(m[i].1).None? ==>
              Remove(MapValues(m[..i], g) + m[i..], m[i].0) == MapValues(m[..i + 1], g) + m[i + 1..]
    ensures g(m[i].1).Some? ==>
              Put(MapValues(m[..i], g) + m[i..], m[i].0, g(m[i].1).value) == MapValues(m[..i + 1], g) + m[i + 1..]
  {
    var done := MapValues(m[..i], g);
    KeyNotBefore(m, i, g);
    assert m[i..] == [m[i]] + m[i + 1..];
    assert done + m[i..] == done + [m[i]] + m[i + 1..];
    assert m[..i + 1] == m[..i] + [m[i]];
    MapValuesSnoc(m[..i], m[i], g);
    if g(m[i].1).None? {
      RemoveMiddle(done, m[i], m[i + 1..]);
    } else {
      PutMiddle(done, m[i], m[i + 1..], g(m[i].1).value);
      assert done + [(m[i].0, g(m[i].1).value)] + m[i + 1..] == done + Mapped(m[i], g) + m[i + 1..];
    }
  }

  /** Counting over the result of a pass, one entry at a time. */
  lemma CountMapValuesCons<K, V>(m: Entries<K, V>, g: V -> Option<V>, p: V -> bool)
    requires m != []
    ensures |MapValues(m, g)| == (if g(m[0].1).Some? then 1 else 0) + |MapValues(m[1..], g)|
    ensures CountWhere(MapValues(m, g), p) ==
              (if g(m[0].1).Some? && p(g(m[0].1).value) then 1 else 0) + CountWhere(MapValues(m[1..], g), p)
  {
    var rest := MapValues(m[1..], g);
    if g(m[0].1).Some? {
      var r := [(m[0].0, g(m[0].1).value)] + rest;
      assert MapValues(m, g) == r;
      assert r[1..] == rest && r[0].1 == g(m[0].1).value;
      assert CountWhere(r, p) == (if p(r[0].1) then 1 else 0) + CountWhere(r[1..], p);
    } else {
      assert MapValues(m, g) == rest;
    }
  }

  /** The key a loop has reached is not among the keys of what it has made of the entries before. */
  lemma KeyNotBefore<K, V>(m: Entries<K, V>, i: nat, g: V -> Option<V>)
    requires UniqueKeys(m) && i < |m|
    ensures Absent(MapValues(m[..i], g), m[i].0)
  {
    assert Absent(m[..i], m[i].0) by {
      forall x | 0 <= x < i
        ensures m[..i][x].0 != m[i].0
      {
        assert m[..i][x] == m[x];
      }
    }
    AbsentMapValues(m[..i], g, m[i].0);
  }
}
