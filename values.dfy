/** Configuration values as the device profiles hold them once parsed from
    JSON, and Python dictionaries as association lists.

    A Python dict never holds a key twice; `Dict` below is the list of its
    (key, value) pairs in the dict's iteration order, which the model takes
    as given. Lookup, item assignment (`d[k] = v`) and `dict.update` are
    defined on it: assignment to a present key keeps its place in that
    order, a new key is placed at the end. */
module Values {

  datatype Option<T> = None | Some(value: T)

  /** The serial-port library's constants that the translation tables
      produce. Their concrete values are not part of the model. */
  datatype SerialConst =
    | FiveBits | SixBits | SevenBits | EightBits
    | ParityNone | ParityEven | ParityOdd | ParityMark | ParitySpace
    | StopBitsOne | StopBitsOnePointFive | StopBitsTwo

  /** A configuration value. `Num` is a JSON number with a fraction or an
      exponent (a Python float), taken as the exact rational it denotes;
      `Const` is a serial-port constant stored by the translation step. */
  datatype Value =
    | Null
    | Bool(b: bool)
    | Int(i: int)
    | Num(r: real)
    | Str(s: string)
    | List(items: seq<Value>)
    | Obj(fields: seq<(string, Value)>)
    | Const(c: SerialConst)

  type Dict = seq<(string, Value)>

  /** The keys of `d`, in iteration order. */
  function Keys(d: Dict): (ks: seq<string>)
    ensures |ks| == |d|
    ensures forall i :: 0 <= i < |d| ==> ks[i] == d[i].0
  {
    if d == [] then [] else [d[0].0] + Keys(d[1..])
  }

  /** Python dicts never hold a key twice. */
  predicate UniqueKeys(d: Dict) {
    forall i, j :: 0 <= i < j < |d| ==> d[i].0 != d[j].0
  }

  /** The position of key `k` in `d`, if it is present. */
  function Find(d: Dict, k: string): (r: Option<nat>)
    ensures r.Some? ==> r.value < |d| && d[r.value].0 == k
    ensures r.Some? ==> forall j :: 0 <= j < r.value ==> d[j].0 != k
    ensures r.None? <==> k !in Keys(d)
  {
    if d == [] then None
    else if d[0].0 == k then Some(0)
    else match Find(d[1..], k)
      case None => None
      case Some(i) => Some(i + 1)
  }

  /** `d.get(k)`: the value stored under `k`, or None. */
  function Get(d: Dict, k: string): (r: Option<Value>)
    ensures r.Some? <==> k in Keys(d)
    ensures r.Some? ==> Find(d, k).Some? && d[Find(d, k).value] == (k, r.value)
  {
    match Find(d, k)
    case None => None
    case Some(i) => Some(d[i].1)
  }

  /** In a dict with distinct keys, every stored pair is what lookup gives. */
  lemma GetStored(d: Dict, i: nat)
    requires UniqueKeys(d) && i < |d|
    ensures Get(d, d[i].0) == Some(d[i].1)
  {
    var p := Find(d, d[i].0).value;
    assert p == i by {
      if p < i {
        assert d[p].0 == d[i].0;
      }
    }
  }

  /** `d[k] = v`: a present key keeps its position, a new key is appended. */
  function Put(d: Dict, k: string, v: Value): (r: Dict)
    ensures k in Keys(d) ==> Keys(r) == Keys(d)
    ensures k !in Keys(d) ==> Keys(r) == Keys(d) + [k]
    ensures Get(r, k) == Some(v)
    ensures forall k' :: k' != k ==> Get(r, k') == Get(d, k')
    ensures UniqueKeys(d) ==> UniqueKeys(r)
  {
    match Find(d, k)
    case Some(i) =>
      PutPreservesFind(d, i, k, v);
      SameKeysUnique(d, d[i := (k, v)]);
      d[i := (k, v)]
    case None =>
      AppendPreservesFind(d, k, v);
      AppendUnique(d, k, v);
      d + [(k, v)]
  }

  /** Distinct keys depend on the key sequence only. */
  lemma SameKeysUnique(d: Dict, r: Dict)
    requires Keys(r) == Keys(d)
    ensures UniqueKeys(d) ==> UniqueKeys(r)
  {
    forall i, j | 0 <= i < j < |r| ensures UniqueKeys(d) ==> r[i].0 != r[j].0 {
      assert r[i].0 == Keys(d)[i] && r[j].0 == Keys(d)[j];
    }
  }

  lemma KeysAssign(d: Dict, i: nat, k: string, v: Value)
    requires i < |d| && d[i].0 == k
    ensures Keys(d[i := (k, v)]) == Keys(d)
  {
  }

  lemma KeysAppend(d: Dict, k: string, v: Value)
    ensures Keys(d + [(k, v)]) == Keys(d) + [k]
  {
  }

  /** Appending a key not yet present keeps the keys distinct. */
  lemma AppendUnique(d: Dict, k: string, v: Value)
    requires k !in Keys(d)
    ensures UniqueKeys(d) ==> UniqueKeys(d + [(k, v)])
  {
    var r := d + [(k, v)];
    forall i, j | 0 <= i < j < |r| ensures UniqueKeys(d) ==> r[i].0 != r[j].0 {
      if j == |d| {
        assert r[i].0 == Keys(d)[i];
      }
    }
  }

  /** Assigning to the key at position `i` keeps every key where it was. */
  lemma PutPreservesFind(d: Dict, i: nat, k: string, v: Value)
    requires Find(d, k) == Some(i)
    ensures Find(d[i := (k, v)], k) == Some(i)
    ensures forall k' :: k' != k ==> Find(d[i := (k, v)], k') == Find(d, k')
    ensures Keys(d[i := (k, v)]) == Keys(d)
  {
    var r := d[i := (k, v)];
    KeysAssign(d, i, k, v);
    forall k' ensures Find(r, k') == Find(d, k') {
      FindSameKeys(d, r, k');
    }
  }

  /** Lookup positions depend on the key sequence only. */
  lemma FindSameKeys(d: Dict, r: Dict, k: string)
    requires Keys(r) == Keys(d)
    ensures Find(r, k) == Find(d, k)
  {
    var fd, fr := Find(d, k), Find(r, k);
    assert fd.None? <==> fr.None?;
    if fd.Some? {
      var p, q := fd.value, fr.value;
      assert r[p].0 == Keys(d)[p] == k;
      assert d[q].0 == Keys(r)[q] == k;
      if p < q {
        assert false;
      } else if q < p {
        assert false;
      }
    }
  }

  /** Appending a new key leaves the positions of the others unchanged. */
  lemma {:induction false} AppendPreservesFind(d: Dict, k: string, v: Value)
    requires Find(d, k).None?
    ensures Find(d + [(k, v)], k) == Some(|d|)
    ensures forall k' :: k' != k ==> Find(d + [(k, v)], k') == Find(d, k')
    ensures Keys(d + [(k, v)]) == Keys(d) + [k]
    decreases |d|
  {
    var r := d + [(k, v)];
    KeysAppend(d, k, v);
    if d != [] {
      assert r[0] == d[0];
      assert r[1..] == d[1..] + [(k, v)];
      AppendPreservesFind(d[1..], k, v);
      forall k' | k' != k ensures Find(r, k') == Find(d, k') {
        assert Find(r[1..], k') == Find(d[1..], k');
      }
    }
  }

  /** `d.update(o)`: every pair of `o`, in order, is assigned into `d`. */
  function Update(d: Dict, o: Dict): (r: Dict)
    ensures |r| >= |d|
    ensures UniqueKeys(d) ==> UniqueKeys(r)
    decreases |o|
  {
    if o == [] then d else Update(Put(d, o[0].0, o[0].1), o[1..])
  }

  /** Shallow override: a key of `o` maps to its value in `o`, whatever it was
      in `d` (a nested object is replaced whole, never merged); every other
      key keeps its value in `d`. */
  lemma {:induction false} UpdateGet(d: Dict, o: Dict)
    requires UniqueKeys(o)
    ensures forall k :: Get(Update(d, o), k) == if k in Keys(o) then Get(o, k) else Get(d, k)
    decreases |o|
  {
    if o != [] {
      var k0, v0 := o[0].0, o[0].1;
      var rest := o[1..];
      assert UniqueKeys(rest);
      UpdateGet(Put(d, k0, v0), rest);
      forall k
        ensures Get(Update(d, o), k) == if k in Keys(o) then Get(o, k) else Get(d, k)
      {
        if k == k0 {
          assert Get(o, k0) == Some(v0);
          assert k0 !in Keys(rest) by {
            forall j | 0 <= j < |rest| ensures Keys(rest)[j] != k0 {
              assert o[j + 1].0 != o[0].0;
            }
          }
        } else {
          assert Keys(o) == [k0] + Keys(rest);
          assert Get(o, k) == Get(rest, k);
        }
      }
    }
  }

  /** `dict.update` keeps every existing key at its position, appends the new
      ones and keeps the keys distinct. */
  lemma UpdateKeys(d: Dict, o: Dict)
    ensures |Update(d, o)| >= |d|
    ensures Keys(Update(d, o))[..|d|] == Keys(d)
    ensures forall k :: k in Keys(Update(d, o)) <==> k in Keys(d) || k in Keys(o)
    ensures UniqueKeys(d) ==> UniqueKeys(Update(d, o))
  {
    UpdateKeepsPrefix(d, o);
    assert Keys(Update(d, o))[..|d|] == Keys(d);
    UpdateKeySet(d, o);
  }

  lemma {:induction false} UpdateKeepsPrefix(d: Dict, o: Dict)
    ensures forall i :: 0 <= i < |d| ==> Update(d, o)[i].0 == d[i].0
    decreases |o|
  {
    if o != [] {
      var p := Put(d, o[0].0, o[0].1);
      UpdateKeepsPrefix(p, o[1..]);
      forall i | 0 <= i < |d| ensures p[i].0 == d[i].0 {
        assert Keys(p)[i] == Keys(d)[i];
      }
    }
  }

  lemma {:induction false} UpdateKeySet(d: Dict, o: Dict)
    ensures forall k :: k in Keys(Update(d, o)) <==> k in Keys(d) || k in Keys(o)
    decreases |o|
  {
    if o != [] {
      var p := Put(d, o[0].0, o[0].1);
      UpdateKeySet(p, o[1..]);
      assert Keys(o) == [o[0].0] + Keys(o[1..]);
      assert forall k :: k in Keys(p) <==> k in Keys(d) || k == o[0].0;
    }
  }

}
