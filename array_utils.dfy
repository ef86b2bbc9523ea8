/**
 * The list helpers of the app (`src/utils/array.ts`): the sequence of
 * ancestor paths of a path, the sort comparator over a file property, and
 * the reductions of a list to a keyed object or to groups by path.
 */
module ArrayUtils {
  import opened Wrappers
  import opened Text
  import opened OrderedMaps

  // ---------------------------------------------------------------- getPathSequence

  datatype PathError = NotAbsolute

  /** The path with one trailing '/' dropped, as `getPathSequence` does. */
  function TrimSlash(p: string): string
  {
    if |p| > 0 && p[|p| - 1] == '/' then p[..|p| - 1] else p
  }

  /**
   * `getPathSequence(path)`: "/" for the root; otherwise, after one trailing
   * '/' is dropped, '/' followed by the first 1, 2, ... segments.  A path
   * that does not start with '/' throws.
   */
  function PathSequence(path: string): (r: Result<seq<string>, PathError>)
    ensures r.Err? <==> |path| == 0 || path[0] != '/'
    ensures path == "/" ==> r == Ok(["/"])
    ensures r.Ok? ==> |r.value| >= 1
  {
    if |path| == 0 || path[0] != '/' then Err(NotAbsolute)
    else if |path| == 1 then Ok(["/"])
    else
      var p := TrimSlash(path);
      var se := Split(p[1..], '/');
      Ok(seq(|se|, i requires 0 <= i < |se| => "/" + Join(se[..i + 1], '/')))
  }

  /** The segments of a path that starts with '/': `path.split('/')` with the first (empty) piece shifted off. */
  lemma SplitAbsolute(p: string)
    requires |p| >= 1 && p[0] == '/'
    ensures Split(p, '/') == [""] + Split(p[1..], '/')
  {
    assert p == [] + ['/'] + p[1..];
    SplitPrefix([], p[1..], '/');
  }

  /** Each entry of the sequence extends the one before it by '/' and the next segment. */
  lemma PathSequenceStep(path: string, i: nat)
    requires PathSequence(path).Ok? && i + 1 < |PathSequence(path).value|
    ensures var r := PathSequence(path).value;
            var se := Split(TrimSlash(path)[1..], '/');
            r[i + 1] == r[i] + "/" + se[i + 1]
  {
    var se := Split(TrimSlash(path)[1..], '/');
    assert se[..i + 2] == se[..i + 1] + [se[i + 1]];
    JoinSnoc(se[..i + 1], se[i + 1], '/');
  }

  /** The last entry is the path itself, without its trailing '/'. */
  lemma PathSequenceLast(path: string)
    requires PathSequence(path).Ok? && |path| > 1
    ensures var r := PathSequence(path).value; r[|r| - 1] == TrimSlash(path)
  {
    var p := TrimSlash(path);
    var se := Split(p[1..], '/');
    assert se[..|se|] == se;
    JoinSplit(p[1..], '/');
    assert p == "/" + p[1..];
  }

  /**
   * Despite the comment above the function, a path with a first segment
   * does not yield "/" first: the sequence starts with that segment.
   */
  lemma PathSequenceFirst(path: string)
    requires PathSequence(path).Ok? && |path| >= 2 && path[1] != '/'
    ensures PathSequence(path).value[0] != "/"
  {
    var p := TrimSlash(path);
    var s := p[1..];
    assert s[0] == path[1] && s[1..] == p[2..];
    var se := Split(s, '/');
    assert se[0] == [s[0]] + Split(s[1..], '/')[0];
    assert se[..1] == [se[0]];
    assert Join(se[..1], '/') == se[0];
    assert |PathSequence(path).value[0]| >= 2;
  }

  // ---------------------------------------------------------------- sortByProperty

  datatype SortOrder = Asc | Desc

  /** A file property as JavaScript compares it: a number, a string, or `undefined`. */
  datatype Prop = Num(n: int) | Str(s: string) | Undefined

  /** String `<`: lexicographic by character. */
  predicate StrLess(a: string, b: string)
  {
    if b == [] then false
    else if a == [] then true
    else if a[0] != b[0] then a[0] < b[0]
    else StrLess(a[1..], b[1..])
  }

  /** JavaScript `x > y` on two values of one property: false whenever `undefined` is involved. */
  predicate Greater(x: Prop, y: Prop)
  {
    match (x, y)
    case (Num(a), Num(b)) => a > b
    case (Str(a), Str(b)) => StrLess(b, a)
    case _ => false
  }

  /** Two property values that JavaScript orders: both numbers or both strings. */
  predicate Comparable(x: Prop, y: Prop)
  {
    (x.Num? && y.Num?) || (x.Str? && y.Str?)
  }

  /** `sortByProperty(sortType, sortOrder)(a, b)`, given `a[sortType]` and `b[sortType]`. */
  function SortByProperty(order: SortOrder, x: Prop, y: Prop): (r: int)
    ensures r == 1 || r == -1
    ensures order == Desc ==> (r == 1 <==> Greater(y, x))
    ensures order == Asc ==> (r == 1 <==> Greater(x, y))
  {
    if order == Desc then (if Greater(y, x) then 1 else -1)
    else if Greater(x, y) then 1 else -1
  }

  lemma {:induction false} StrLessTotal(a: string, b: string)
    ensures a != b ==> StrLess(a, b) || StrLess(b, a)
    ensures !(StrLess(a, b) && StrLess(b, a))
  {
    if a != [] && b != [] && a[0] == b[0] {
      StrLessTotal(a[1..], b[1..]);
      assert a == [a[0]] + a[1..] && b == [b[0]] + b[1..];
    }
  }

  /** On distinct comparable values, swapping the arguments swaps the answer, and descending is ascending reversed. */
  lemma SortByPropertyAntisymmetric(order: SortOrder, x: Prop, y: Prop)
    requires Comparable(x, y) && x != y
    ensures SortByProperty(order, x, y) == -SortByProperty(order, y, x)
    ensures SortByProperty(Desc, x, y) == -SortByProperty(Asc, x, y)
  {
    if x.Str? {
      StrLessTotal(x.s, y.s);
    }
  }

  /**
   * The comparator never answers 0: equal values, and any value against
   * `undefined`, compare as less in both directions.
   */
  lemma SortByPropertyTies(order: SortOrder, x: Prop, y: Prop)
    requires x == y || x.Undefined? || y.Undefined?
    ensures SortByProperty(order, x, y) == -1 && SortByProperty(order, y, x) == -1
  {
    if x.Str? && x == y {
      StrLessTotal(x.s, x.s);
    }
  }

  // ---------------------------------------------------------------- reduceArrayToObjectByKey, groupListByPropPath

  /** `reduceArrayToObjectByKey(key, arr)`, with `key(x)` for `x[key]`: each element stored under its key. */
  function ReduceByKey<T>(arr: seq<T>, key: T -> string): (r: Entries<string, T>)
    ensures UniqueKeys(r)
  {
    if arr == [] then []
    else
      var acc := ReduceByKey(arr[..|arr| - 1], key);
      UniqueKeysPut(acc, key(arr[|arr| - 1]), arr[|arr| - 1]);
      Put(acc, key(arr[|arr| - 1]), arr[|arr| - 1])
  }

  /** The last element of `arr` with key `k`. */
  function LastWithKey<T>(arr: seq<T>, key: T -> string, k: string): Option<T>
  {
    if arr == [] then None
    else if key(arr[|arr| - 1]) == k then Some(arr[|arr| - 1])
    else LastWithKey(arr[..|arr| - 1], key, k)
  }

  /** Later elements overwrite earlier ones with the same key. */
  lemma {:induction false} ReduceByKeyGet<T>(arr: seq<T>, key: T -> string, k: string)
    ensures Get(ReduceByKey(arr, key), k) == LastWithKey(arr, key, k)
  {
    if arr != [] {
      var init := arr[..|arr| - 1];
      ReduceByKeyGet(init, key, k);
      GetPut(ReduceByKey(init, key), key(arr[|arr| - 1]), arr[|arr| - 1], k);
    }
  }

  /** `groupListByPropPath(arr)`: the elements in lists under their path, each list in input order. */
  function GroupByPath<T>(arr: seq<T>, path: T -> string): (r: Entries<string, seq<T>>)
    ensures UniqueKeys(r)
  {
    if arr == [] then []
    else
      var acc := GroupByPath(arr[..|arr| - 1], path);
      var x := arr[|arr| - 1];
      var group := match Get(acc, path(x)) case None => [] case Some(g) => g;
      UniqueKeysPut(acc, path(x), group + [x]);
      Put(acc, path(x), group + [x])
  }

  /** The elements of `arr` with path `p`, in order. */
  function WithPath<T>(arr: seq<T>, path: T -> string, p: string): seq<T>
  {
    if arr == [] then []
    else WithPath(arr[..|arr| - 1], path, p) + (if path(arr[|arr| - 1]) == p then [arr[|arr| - 1]] else [])
  }

  /** The groups partition the input: each path's list is exactly its elements in order, and no list is empty. */
  lemma {:induction false} GroupByPathGet<T>(arr: seq<T>, path: T -> string, p: string)
    ensures Get(GroupByPath(arr, path), p) == if WithPath(arr, path, p) == [] then None else Some(WithPath(arr, path, p))
  {
    if arr != [] {
      var init := arr[..|arr| - 1];
      var x := arr[|arr| - 1];
      var acc := GroupByPath(init, path);
      var group := match Get(acc, path(x)) case None => [] case Some(g) => g;
      assert GroupByPath(arr, path) == Put(acc, path(x), group + [x]);
      GetPut(acc, path(x), group + [x], p);
      if p == path(x) {
        GroupByPathGet(init, path, p);
        assert group == WithPath(init, path, p);
        assert WithPath(arr, path, p) == group + [x];
      } else {
        GroupByPathGet(init, path, p);
        assert Get(GroupByPath(arr, path), p) == Get(acc, p);
        assert WithPath(arr, path, p) == WithPath(init, path, p) + [];
        assert WithPath(arr, path, p) == WithPath(init, path, p);
      }
    }
  }
}
