/** The count handler and the transaction handler address the same keys: what one stages lies under
    the prefix the other counts. */
module CountSeesStaged {
  import opened ApiVersions
  import opened Values
  import opened StorageKeys
  import opened TransactionEnv
  import opened Staging

  /** The prefix a count for this `apiVersion` and kind uses in a namespace. */
  function CountPrefix(env: Env, m: Mapping, namespace: string): string {
    KeyPrefix(env.core, m.group, m.resource, m.clusterScoped, namespace)
  }

  /** A staged key is the key of an object whose name carries the operation. */
  lemma StagedKeyAsSlot(env: Env, s: Staged)
    ensures KeyOf(env, s) == SlotKey(SlotOf(env.core, s.id).(name := s.id.name + "#" + s.operation))
  {
    ObjectKeyIsSlotKey(env.core, s.id);
    var slot := SlotOf(env.core, s.id);
    var stem := REGISTRY + Slashed(Segments(slot.group, slot.resource, slot.namespace));
    assert stem + s.id.name + "#" + s.operation == stem + (s.id.name + "#" + s.operation);
  }

  /** For an entry whose `apiVersion` both handlers read alike, and with the same mapper behind
      both, the staged key lies under the count prefix of its kind and final namespace exactly when
      the mapping's group and the requested group share a key space. */
  lemma StagedKeyUnderCountPrefix(env: Env, groups: set<string>, t: Tagged, ns: string, m: Mapping)
    requires StageOne(env, t, ns).Ok?
    requires var o := env.decode(t.entry).value; var apiVersion := StringField(o, "apiVersion");
             && ('/' in apiVersion || LooksLikeVersion(apiVersion))
             && env.stageLookup(CountGvk(apiVersion, StringField(o, "kind"))) == Found(m)
    requires var s := StageOne(env, t, ns).value;
             && WellFormed(groups, SlotOf(env.core, s.id)) && '/' !in s.operation && '/' !in s.id.namespace
             && WellFormed(groups, Slot(SpaceOf(env.core, m.group), m.resource, "", ""))
    ensures var s := StageOne(env, t, ns).value;
            CountPrefix(env, m, s.id.namespace) <= KeyOf(env, s)
            <==> SpaceOf(env.core, m.group) == SpaceOf(env.core, s.id.group)
  {
    var s := StageOne(env, t, ns).value;
    var o := env.decode(t.entry).value;
    ParsersAgree(StringField(o, "apiVersion"), StringField(o, "kind"));
    assert s.id.resource == m.resource && s.id.clusterScoped == m.clusterScoped;
    StagedKeyAsSlot(env, s);
    var slot := SlotOf(env.core, s.id).(name := s.id.name + "#" + s.operation);
    PrefixSelectsExactly(env.core, groups, m.group, m.resource, m.clusterScoped, s.id.namespace, slot);
  }
}
