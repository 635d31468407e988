/** The get-then-put updates the transforms apply to their `HashMap<Integer,Integer>` tables. */
module JavaMaps {

  /** `m.put(k, m.get(k) == null ? 1 : m.get(k) + 1)`. */
  function Increment<K>(m: map<K, int>, k: K): (r: map<K, int>)
    ensures r.Keys == m.Keys + {k}
    ensures r[k] == (if k in m then m[k] + 1 else 1)
    ensures forall j :: j in m && j != k ==> r[j] == m[j]
  {
    m[k := if k in m then m[k] + 1 else 1]
  }

  /** `m.put(k, m.get(k) == null ? n : n + m.get(k))`. */
  function AddTo<K>(m: map<K, int>, k: K, n: int): (r: map<K, int>)
    ensures r.Keys == m.Keys + {k}
    ensures r[k] == (if k in m then n + m[k] else n)
    ensures forall j :: j in m && j != k ==> r[j] == m[j]
  {
    m[k := if k in m then n + m[k] else n]
  }
}
