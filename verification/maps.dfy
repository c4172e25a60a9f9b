/**
 Point-wise descriptions of the two ways the observer changes its dictionaries:
 storing one key (`d[k] = v`) and deleting one key (`d.pop(k)`). They are stated
 independently of Dafny's map update operators so that contracts can say
 "this entry changed and nothing else did".
 */
module Maps {

  /** `after` is `before` with key `k` bound to `v`, overwriting any previous binding. */
  predicate StoredAt<K, V(==)>(before: map<K, V>, after: map<K, V>, k: K, v: V)
  {
    && after.Keys == before.Keys + {k}
    && after[k] == v
    && forall j :: j in before && j != k ==> after[j] == before[j]
  }

  /** `after` is `before` without key `k`; every other binding is kept. */
  predicate RemovedAt<K, V(==)>(before: map<K, V>, after: map<K, V>, k: K)
  {
    && after.Keys == before.Keys - {k}
    && forall j :: j in after ==> after[j] == before[j]
  }
}
