/**
 The value trees that the dataset script handles: what a pickle file
 deserialises to, and what the script hands to the JSON encoder.

 Python's dynamic type tests (`isinstance(x, np.ndarray)`, `dict`, `list`)
 become the constructors of one closed datatype. A Python dict keeps its
 insertion order, so a mapping is an ordered sequence of key/value pairs;
 `Assign` and `Get` are the dict's item assignment and item lookup.
 */
module Values {

  datatype Option<T> = None | Some(value: T)

  /** Leaf payloads that the normaliser never looks into: numbers, strings,
      booleans, None and tuples of these. Floating-point precision is not
      modelled; a float is an exact real here. */
  datatype Scalar =
    | Int(i: int)
    | Float(x: real)
    | Str(s: string)
    | Bool(b: bool)
    | NoneValue
    | Tuple(parts: seq<Scalar>)

  /** A Python value as the script sees it. `Array(dims, data)` is a numpy
      array with shape `dims` and its elements in row-major (C) order. */
  datatype Value =
    | Array(dims: seq<nat>, data: seq<Scalar>)
    | Seq(items: seq<Value>)
    | Map(entries: Dict)
    | Other(scalar: Scalar)

  /** A Python dict: key/value pairs in insertion order. */
  type Dict = seq<(string, Value)>

  /** Number of elements of an array of the given shape. */
  function Product(dims: seq<nat>): (n: nat)
  {
    if dims == [] then 1 else dims[0] * Product(dims[1..])
  }

  /** `list(d.keys())`. */
  function KeysOf(d: Dict): (ks: seq<string>)
    ensures |ks| == |d|
    ensures forall i :: 0 <= i < |d| ==> ks[i] == d[i].0
  {
    seq(|d|, i requires 0 <= i < |d| => d[i].0)
  }

  /** Dict keys are unique. */
  predicate DistinctKeys(d: Dict)
  {
    forall i, j :: 0 <= i < j < |d| ==> d[i].0 != d[j].0
  }

  /** What every value the script can receive satisfies: every dict has
      unique keys and every numpy array holds exactly as many elements as
      its shape says. */
  predicate WellFormed(v: Value)
  {
    match v
    case Array(dims, data) => |data| == Product(dims)
    case Seq(items) => forall i :: 0 <= i < |items| ==> WellFormed(items[i])
    case Map(entries) =>
      DistinctKeys(entries) && forall i :: 0 <= i < |entries| ==> WellFormed(entries[i].1)
    case Other(_) => true
  }

  /** The keys after the first pair are the keys of the tail. */
  lemma KeysOfTail(d: Dict)
    requires d != []
    ensures KeysOf(d) == [d[0].0] + KeysOf(d[1..])
  {
  }

  /** Where key `k` sits in `d`: its first position. */
  function IndexOf(d: Dict, k: string): (idx: nat)
    requires k in KeysOf(d)
    ensures idx < |d| && d[idx].0 == k
    ensures forall j :: 0 <= j < idx ==> d[j].0 != k
  {
    KeysOfTail(d);
    if d[0].0 == k then 0 else 1 + IndexOf(d[1..], k)
  }

  /** `d[k]`: the value stored under `k`, which must be present. */
  function Get(d: Dict, k: string): (v: Value)
    requires k in KeysOf(d)
    ensures (k, v) in d
  {
    var idx := IndexOf(d, k);
    assert d[idx] == (k, d[idx].1);
    d[idx].1
  }

  /** When the keys of `d` are the first keys of `r`, every key of `d` sits
      at the same position in `r`. */
  lemma IndexOfFrame(d: Dict, r: Dict)
    requires |d| <= |r| && KeysOf(r)[..|d|] == KeysOf(d)
    ensures forall k :: k in KeysOf(d) ==> k in KeysOf(r) && IndexOf(r, k) == IndexOf(d, k)
  {
    forall k | k in KeysOf(d) ensures k in KeysOf(r) && IndexOf(r, k) == IndexOf(d, k) {
      var i := IndexOf(d, k);
      assert KeysOf(r)[i] == KeysOf(d)[i] == k;
    }
  }

  /** `d[k] = v`: overwrites the value in place when `k` is already a key,
      otherwise appends the new pair at the end. */
  function Assign(d: Dict, k: string, v: Value): (r: Dict)
    ensures KeysOf(r) == if k in KeysOf(d) then KeysOf(d) else KeysOf(d) + [k]
    ensures k in KeysOf(r) && Get(r, k) == v
    ensures forall k' {:trigger Get(r, k')} :: k' != k && k' in KeysOf(d) ==> Get(r, k') == Get(d, k')
  {
    if k in KeysOf(d) then
      var idx := IndexOf(d, k);
      var r := d[idx := (k, v)];
      assert KeysOf(r) == KeysOf(d);
      IndexOfFrame(d, r);
      assert IndexOf(r, k) == idx by {
        var j := IndexOf(r, k);
        assert KeysOf(r)[j] == KeysOf(d)[j] && KeysOf(r)[idx] == k;
      }
      r
    else
      var r := d + [(k, v)];
      assert KeysOf(r) == KeysOf(d) + [k];
      IndexOfFrame(d, r);
      assert IndexOf(r, k) == |d| by {
        var j := IndexOf(r, k);
        assert KeysOf(r)[j] == k;
      }
      r
  }

  /** With unique keys, looking up the i-th key finds the i-th value. */
  lemma GetAt(d: Dict, i: nat)
    requires DistinctKeys(d) && i < |d|
    ensures d[i].0 in KeysOf(d)
    ensures Get(d, d[i].0) == d[i].1
  {
    assert KeysOf(d)[i] == d[i].0;
    var idx := IndexOf(d, d[i].0);
    assert idx == i;
  }

  /** Looking up a key appended after pairs with other keys finds the
      appended value. */
  lemma GetLast(d: Dict, k: string, v: Value)
    requires k !in KeysOf(d)
    ensures k in KeysOf(d + [(k, v)])
    ensures Get(d + [(k, v)], k) == v
  {
    var e := d + [(k, v)];
    assert KeysOf(e)[|d|] == k;
    var idx := IndexOf(e, k);
  }

  /** Assigning to a fresh key appends it. */
  lemma AssignFresh(d: Dict, k: string, v: Value)
    requires k !in KeysOf(d)
    ensures Assign(d, k, v) == d + [(k, v)]
  {
  }

  /** Assigning to the key of the last pair, when no earlier pair has that
      key, replaces that pair and leaves the rest untouched. */
  lemma AssignLast(d: Dict, k: string, w: Value, v: Value)
    requires k !in KeysOf(d)
    ensures Assign(d + [(k, w)], k, v) == d + [(k, v)]
  {
    var e := d + [(k, w)];
    assert KeysOf(e)[|d|] == k;
    var idx := IndexOf(e, k);
    assert e[|d| := (k, v)] == d + [(k, v)];
  }

  /** In a dict with unique keys, the i-th key does not occur among the
      first i keys of any dict with the same key sequence. */
  lemma FreshKey(d: Dict, e: Dict, i: nat)
    requires KeysOf(d) == KeysOf(e) && DistinctKeys(e) && i < |e|
    ensures e[i].0 !in KeysOf(d[..i])
  {
    forall j | 0 <= j < i ensures KeysOf(d[..i])[j] != e[i].0 {
      assert KeysOf(d)[j] == KeysOf(e)[j];
    }
  }
}
