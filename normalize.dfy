/**
 `convert_ndarray_to_list`: the recursive normaliser that turns every numpy
 array in a value tree into nested lists so that the tree can be written as
 JSON. Dicts and lists are rebuilt with their keys and order, every other
 value passes through unchanged.
 */
module Normalize {
  import opened Values

  /** True when no numpy array occurs anywhere in `v`: the tree only holds
      dicts, lists and scalars. */
  predicate NoArrays(v: Value)
  {
    match v
    case Array(_, _) => false
    case Seq(items) => forall i :: 0 <= i < |items| ==> NoArrays(items[i])
    case Map(entries) => forall i :: 0 <= i < |entries| ==> NoArrays(entries[i].1)
    case Other(_) => true
  }

  /** `v` is a list nested `|dims|` deep whose list lengths are `dims`, with
      scalars at the bottom: what `tolist()` gives for an array of that shape. */
  predicate HasShape(v: Value, dims: seq<nat>)
    decreases |dims|
  {
    if dims == [] then v.Other?
    else
      && v.Seq?
      && |v.items| == dims[0]
      && forall i :: 0 <= i < |v.items| ==> HasShape(v.items[i], dims[1..])
  }

  /** Concatenation of a sequence of rows. */
  function Concat(rows: seq<seq<Scalar>>): (flat: seq<Scalar>)
  {
    if rows == [] then [] else Concat(rows[..|rows| - 1]) + rows[|rows| - 1]
  }

  /** The scalars of a nested list, read left to right (depth first). */
  function Flatten(v: Value): (scalars: seq<Scalar>)
  {
    match v
    case Other(x) => [x]
    case Seq(items) => Concat(seq(|items|, i requires 0 <= i < |items| => Flatten(items[i])))
    case _ => []
  }

  lemma RowFits(i: nat, n: nat, s: nat)
    requires i < n
    ensures i * s + s <= n * s
  {
    assert n * s == i * s + (n - i) * s;
    assert (n - i) * s == s + (n - i - 1) * s;
  }

  /** The first `n` consecutive slices of length `s` of `data`. */
  function Rows(data: seq<Scalar>, s: nat, n: nat): (rows: seq<seq<Scalar>>)
    requires n * s <= |data|
    ensures |rows| == n
  {
    seq(n, i requires 0 <= i < n => RowFits(i, n, s); data[i * s .. i * s + s])
  }

  lemma RowAt(data: seq<Scalar>, s: nat, n: nat, i: nat)
    requires n * s <= |data| && i < n
    ensures i * s + s <= |data|
    ensures Rows(data, s, n)[i] == data[i * s .. i * s + s]
  {
    RowFits(i, n, s);
  }

  /** `ndarray.tolist()`: an array of shape `dims` with `data` in row-major
      order becomes `dims[0]` nested lists of shape `dims[1..]`; a
      zero-dimensional array becomes its single scalar. */
  function ToList(dims: seq<nat>, data: seq<Scalar>): (r: Value)
    requires |data| == Product(dims)
    ensures NoArrays(r) && WellFormed(r)
    ensures r.Seq? || r.Other?
    decreases |dims|
  {
    if dims == [] then Other(data[0])
    else
      var n, s := dims[0], Product(dims[1..]);
      var rows := Rows(data, s, n);
      Seq(seq(n, i requires 0 <= i < n => RowAt(data, s, n, i); ToList(dims[1..], rows[i])))
  }

  /** `convert_ndarray_to_list(data)`. */
  function Convert(v: Value): (r: Value)
    requires WellFormed(v)
    ensures NoArrays(r) && WellFormed(r)
    ensures r.Map? <==> v.Map?
    ensures v.Map? ==> KeysOf(r.entries) == KeysOf(v.entries)
    ensures v.Seq? ==> r.Seq? && |r.items| == |v.items|
    ensures v.Other? ==> r == v
  {
    match v
    case Array(dims, data) => ToList(dims, data)
    case Map(entries) =>
      var converted := seq(|entries|, i requires 0 <= i < |entries| => (entries[i].0, Convert(entries[i].1)));
      assert KeysOf(converted) == KeysOf(entries);
      Map(converted)
    case Seq(items) => Seq(seq(|items|, i requires 0 <= i < |items| => Convert(items[i])))
    case Other(_) => v
  }

  /** Stacking the consecutive slices of `data` gives back its prefix. */
  lemma {:induction false} ConcatRows(data: seq<Scalar>, s: nat, n: nat)
    requires n * s <= |data|
    ensures Concat(Rows(data, s, n)) == data[..n * s]
  {
    if n > 0 {
      var rows := Rows(data, s, n);
      RowFits(n - 1, n, s);
      assert rows[..n - 1] == Rows(data, s, n - 1) by {
        forall i | 0 <= i < n - 1 ensures rows[i] == Rows(data, s, n - 1)[i] {
          RowAt(data, s, n, i);
          RowAt(data, s, n - 1, i);
        }
      }
      ConcatRows(data, s, n - 1);
      RowAt(data, s, n, n - 1);
      assert (n - 1) * s + s == n * s;
      assert data[..(n - 1) * s] + data[(n - 1) * s .. n * s] == data[..n * s];
    }
  }

  /** A list whose elements flatten to `rows` flattens to their
      concatenation. */
  lemma FlattenSeq(items: seq<Value>, rows: seq<seq<Scalar>>)
    requires |items| == |rows|
    requires forall i :: 0 <= i < |items| ==> Flatten(items[i]) == rows[i]
    ensures Flatten(Seq(items)) == Concat(rows)
  {
    assert seq(|items|, i requires 0 <= i < |items| => Flatten(items[i])) == rows;
  }

  /** The i-th element of a converted array is the conversion of the i-th
      slice of its data. */
  lemma ToListItem(dims: seq<nat>, data: seq<Scalar>, i: nat)
    requires |data| == Product(dims) && dims != [] && i < dims[0]
    ensures dims[0] * Product(dims[1..]) <= |data|
    ensures var rows := Rows(data, Product(dims[1..]), dims[0]);
      && |rows[i]| == Product(dims[1..])
      && ToList(dims, data).items[i] == ToList(dims[1..], rows[i])
  {
    RowAt(data, Product(dims[1..]), dims[0], i);
  }

  /** An array of shape `dims` becomes a nested list of that shape whose
      scalars, read in order, are the array's elements in row-major order. */
  lemma {:induction false} ToListShape(dims: seq<nat>, data: seq<Scalar>)
    requires |data| == Product(dims)
    ensures HasShape(ToList(dims, data), dims)
    ensures Flatten(ToList(dims, data)) == data
    decreases |dims|
  {
    if dims != [] {
      var n, s := dims[0], Product(dims[1..]);
      var rows := Rows(data, s, n);
      var r := ToList(dims, data);
      forall i | 0 <= i < n
        ensures HasShape(r.items[i], dims[1..])
        ensures Flatten(r.items[i]) == rows[i]
      {
        ToListItem(dims, data, i);
        ToListShape(dims[1..], rows[i]);
      }
      FlattenSeq(r.items, rows);
      ConcatRows(data, s, n);
    }
  }

  /** A shape `(a, b)` array becomes a list of `a` lists of length `b`, and
      entry `[i][j]` is element `i * b + j` of the row-major data. */
  lemma ToListMatrix(a: nat, b: nat, data: seq<Scalar>, i: nat, j: nat)
    requires |data| == a * b && i < a && j < b
    ensures WellFormed(Array([a, b], data))
    ensures var r := Convert(Array([a, b], data));
      && r.Seq? && |r.items| == a
      && r.items[i].Seq? && |r.items[i].items| == b
      && i * b + j < |data|
      && r.items[i].items[j] == Other(data[i * b + j])
  {
    var dims := [a, b];
    assert dims[1..] == [b] && Product([b]) == b;
    var r := ToList(dims, data);
    var rows := Rows(data, b, a);
    RowAt(data, b, a, i);
    assert r.items[i] == ToList([b], rows[i]);
    var inner := Rows(rows[i], 1, b);
    RowAt(rows[i], 1, b, j);
    assert [b][1..] == [];
    assert r.items[i].items[j] == ToList([], inner[j]);
  }

  /** A dict is rebuilt with the same keys in the same order, and each value
      is the conversion of the value it had. */
  lemma ConvertMap(entries: Dict)
    requires WellFormed(Map(entries))
    ensures var r := Convert(Map(entries));
      && r.Map? && |r.entries| == |entries|
      && forall i :: 0 <= i < |entries| ==>
           WellFormed(entries[i].1) && r.entries[i] == (entries[i].0, Convert(entries[i].1))
  {
  }

  /** Looking a key up in the converted dict gives the conversion of what it
      looked up in the original. */
  lemma ConvertGet(entries: Dict, k: string)
    requires WellFormed(Map(entries)) && k in KeysOf(entries)
    ensures var r := Convert(Map(entries));
      && r.Map? && k in KeysOf(r.entries)
      && WellFormed(Get(entries, k))
      && Get(r.entries, k) == Convert(Get(entries, k))
  {
    var r := Convert(Map(entries));
    var i :| 0 <= i < |entries| && KeysOf(entries)[i] == k;
    GetAt(entries, i);
    assert DistinctKeys(r.entries) && KeysOf(r.entries)[i] == k;
    GetAt(r.entries, i);
  }

  /** A list is rebuilt with the same length and order, each element
      converted. */
  lemma ConvertSeq(items: seq<Value>)
    requires WellFormed(Seq(items))
    ensures var r := Convert(Seq(items));
      && r.Seq? && |r.items| == |items|
      && forall i :: 0 <= i < |items| ==> WellFormed(items[i]) && r.items[i] == Convert(items[i])
  {
  }

  /** A tree without arrays is already in normal form. */
  lemma {:induction false} ConvertArrayFree(v: Value)
    requires WellFormed(v) && NoArrays(v)
    ensures Convert(v) == v
  {
    match v
    case Seq(items) =>
      forall i | 0 <= i < |items| ensures Convert(items[i]) == items[i] {
        ConvertArrayFree(items[i]);
      }
      assert Convert(v).items == items;
    case Map(entries) =>
      forall i | 0 <= i < |entries| ensures Convert(entries[i].1) == entries[i].1 {
        ConvertArrayFree(entries[i].1);
      }
      assert Convert(v).entries == entries;
    case Other(_) =>
  }

  /** Normalising twice is normalising once. */
  lemma ConvertIdempotent(v: Value)
    requires WellFormed(v)
    ensures Convert(Convert(v)) == Convert(v)
  {
    ConvertArrayFree(Convert(v));
  }
}
