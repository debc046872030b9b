/** The part of etcd the handlers use: revisioned keys, one compare-and-put, counting a prefix. */
module EtcdStore {

  datatype Record<+V> = Record(value: V, modRevision: nat)

  datatype Store<+V> = Store(revision: nat, kv: map<string, Record<V>>)

  datatype TxnResponse = TxnResponse(succeeded: bool, revision: nat)

  /** A key that is absent has modification revision 0. */
  function ModRevision<V>(s: Store<V>, key: string): nat {
    if key in s.kv then s.kv[key].modRevision else 0
  }

  /** Every record was written at some revision the store has gone through. */
  ghost predicate Consistent<V>(s: Store<V>) {
    forall key | key in s.kv :: 1 <= s.kv[key].modRevision <= s.revision
  }

  /** `If(ModRevision(key) = 0).Then(Put).Else(Get)`, as one atomic step. */
  function PutIfAbsent<V>(s: Store<V>, key: string, value: V): (Store<V>, TxnResponse) {
    if ModRevision(s, key) == 0 then
      (Store(s.revision + 1, s.kv[key := Record(value, s.revision + 1)]), TxnResponse(true, s.revision + 1))
    else
      (s, TxnResponse(false, s.revision))
  }

  /** On a consistent store the comparison means absence: the put happens exactly when the key is
      absent, binds that key alone, at a revision later than any other record's. */
  lemma PutIfAbsentCreates<V>(s: Store<V>, key: string, value: V)
    requires Consistent(s)
    ensures var (s', r) := PutIfAbsent(s, key, value);
            && Consistent(s')
            && (r.succeeded <==> key !in s.kv)
            && (!r.succeeded ==> s' == s)
            && (r.succeeded ==>
                  && s'.kv.Keys == s.kv.Keys + {key} && s'.kv[key] == Record(value, r.revision)
                  && (forall k | k in s.kv :: s'.kv[k] == s.kv[k] && s.kv[k].modRevision < r.revision))
  {
  }

  class Etcd<V> {
    var revision: nat
    var kv: map<string, Record<V>>

    constructor ()
      ensures State() == Store(0, map[])
    {
      revision, kv := 0, map[];
    }

    ghost function State(): Store<V>
      reads this
    {
      Store(revision, kv)
    }

    method TxnPutIfAbsent(key: string, value: V) returns (r: TxnResponse)
      modifies this
      ensures (State(), r) == PutIfAbsent(old(State()), key, value)
    {
      if key !in kv || kv[key].modRevision == 0 {
        revision := revision + 1;
        kv := kv[key := Record(value, revision)];
        return TxnResponse(true, revision);
      }
      return TxnResponse(false, revision);
    }
  }
}
