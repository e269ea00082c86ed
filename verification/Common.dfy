/** Values shared by every part of the model. */
module Common {

  type byte = x: int | 0 <= x < 256

  type Bytes = seq<byte>

  datatype Option<+T> = None | Some(value: T)

  /** The string-to-string dictionaries of libdroplet (`dpl_dict_t`). */
  type Dict = map<string, string>

  function Min(a: nat, b: nat): nat { if a < b then a else b }

  /** One cell of a store, written or removed. */
  function Put<K(!new), V>(m: map<K, V>, k: K, v: Option<V>): (r: map<K, V>)
    ensures forall q :: q != k ==> ((q in r) == (q in m)) && (q in m ==> r[q] == m[q])
    ensures (k in r) == v.Some?
    ensures v.Some? ==> r[k] == v.value
  {
    match v
    case None => m - {k}
    case Some(x) => m[k := x]
  }
}
