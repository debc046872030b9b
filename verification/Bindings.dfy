/** Filling a map entry by entry: what a later write under the same key does to an earlier one. */
module Bindings {

  datatype Binding = Binding(key: string, value: string)

  function Bind(bs: seq<Binding>): map<string, string> {
    if bs == [] then map[] else Bind(bs[..|bs| - 1])[bs[|bs| - 1].key := bs[|bs| - 1].value]
  }

  lemma BindSnoc(bs: seq<Binding>, b: Binding)
    ensures Bind(bs + [b]) == Bind(bs)[b.key := b.value]
  {
    assert (bs + [b])[..|bs|] == bs;
  }

  ghost predicate LastUnderKey(bs: seq<Binding>, i: nat)
    requires i < |bs|
  {
    forall j | i < j < |bs| :: bs[j].key != bs[i].key
  }

  ghost predicate Written(bs: seq<Binding>, key: string) {
    exists i :: 0 <= i < |bs| && bs[i].key == key
  }

  /** The keys of the map are the written keys. */
  lemma {:induction false} BoundKeys(bs: seq<Binding>)
    ensures forall k :: k in Bind(bs) <==> Written(bs, k)
  {
    if bs != [] {
      var n := |bs| - 1;
      var init := bs[..n];
      BoundKeys(init);
      forall k ensures Written(bs, k) <==> Written(init, k) || bs[n].key == k {
        if i :| 0 <= i < |init| && init[i].key == k { assert bs[i].key == k; }
        if i :| 0 <= i < n && bs[i].key == k { assert init[i].key == k; }
      }
    }
  }

  /** A key is bound to the last value written under it. */
  lemma {:induction false} LastWriterWins(bs: seq<Binding>, i: nat)
    requires i < |bs| && LastUnderKey(bs, i)
    ensures bs[i].key in Bind(bs) && Bind(bs)[bs[i].key] == bs[i].value
  {
    var n := |bs| - 1;
    if i < n {
      assert bs[n].key != bs[i].key;
      assert bs[..n][i] == bs[i] && LastUnderKey(bs[..n], i);
      LastWriterWins(bs[..n], i);
    }
  }

  ghost predicate DistinctKeys(bs: seq<Binding>) {
    forall i, j | 0 <= i < j < |bs| :: bs[i].key != bs[j].key
  }

  lemma SizeAfterWrite(m: map<string, string>, key: string, value: string)
    ensures |m[key := value]| == |m| + if key in m then 0 else 1
  {
    var m' := m[key := value];
    assert m'.Keys == m.Keys + {key};
    assert |m'| == |m'.Keys| && |m| == |m.Keys|;
  }

  lemma DistinctKeysSnoc(bs: seq<Binding>)
    requires bs != []
    ensures DistinctKeys(bs) <==> DistinctKeys(bs[..|bs| - 1]) && !Written(bs[..|bs| - 1], bs[|bs| - 1].key)
  {
    var n := |bs| - 1;
    var init := bs[..n];
    if Written(init, bs[n].key) {
      var i :| 0 <= i < n && init[i].key == bs[n].key;
      assert bs[i].key == bs[n].key;
    }
    assert forall i | 0 <= i < n :: init[i] == bs[i];
    if DistinctKeys(init) && !Written(init, bs[n].key) {
      forall i, j | 0 <= i < j < |bs| ensures bs[i].key != bs[j].key {
        assert init[i].key == bs[i].key;
        if j < n { assert init[j].key == bs[j].key; }
      }
    }
  }

  /** The map has one key per write exactly when all written keys differ. */
  lemma {:induction false} SizeCountsDistinctKeys(bs: seq<Binding>)
    ensures |Bind(bs)| <= |bs|
    ensures |Bind(bs)| == |bs| <==> DistinctKeys(bs)
  {
    if bs != [] {
      var n := |bs| - 1;
      SizeCountsDistinctKeys(bs[..n]);
      BoundKeys(bs[..n]);
      SizeAfterWrite(Bind(bs[..n]), bs[n].key, bs[n].value);
      DistinctKeysSnoc(bs);
    }
  }
}
