/** The staging pass: every entry becomes one key in a map of storage keys. Its derivation of
    group, resource, scope and namespace is independent of the authorisation pass; the two are
    proved to agree. */
module Staging {
  import opened GoStrings
  import opened ApiVersions
  import opened Values
  import opened RequestPaths
  import opened StorageKeys
  import opened TransactionEnv
  import opened Authorization
  import opened Bindings
  import opened Outcomes

  datatype StageError =
    | NotDecoded | MissingApiVersion | MissingKind | MappingFailed | ResourceNotFound
    | ValidationFailed | ValidationEmpty | NoName | NotMarshalled

  /** What one entry stages. */
  datatype Staged = Staged(id: Identity, operation: string, value: string)

  function KeyOf(env: Env, s: Staged): string {
    StagedKey(env.core, s.id, s.operation)
  }

  /** The permission a staged operation exercises. */
  function AuthorityOf(s: Staged): AuthKey {
    AuthKey(s.id.group, s.id.resource, s.operation, s.id.namespace)
  }

  function GvkOf(o: Object): Gvk {
    TransactionGvk(StringField(o, "apiVersion"), StringField(o, "kind"))
  }

  /** The namespace an object is sent to: its own, else the request's; none in cluster scope. */
  function TargetNamespace(o: Object, m: Mapping, requestNs: string): string {
    if m.clusterScoped then "" else if GetNamespace(o) != "" then GetNamespace(o) else requestNs
  }

  /** The object with its namespace filled in. */
  function Filled(o: Object, m: Mapping, requestNs: string): Object {
    var ns := TargetNamespace(o, m, requestNs);
    if ns != "" && GetNamespace(o) == "" then SetNamespace(o, ns) else o
  }

  /** The validator's answer for the entry; deletions are not validated. */
  function AnswerFor(env: Env, o: Object, m: Mapping, operation: string, requestNs: string): Validation {
    if operation == DELETE then Valid(Filled(o, m, requestNs))
    else env.validate(m, operation, TargetNamespace(o, m, requestNs), Filled(o, m, requestNs))
  }

  function StageMapped(env: Env, o: Object, m: Mapping, operation: string, requestNs: string)
    : Result<Staged, StageError>
  {
    match AnswerFor(env, o, m, operation, requestNs)
    case Invalid => Err(ValidationFailed)
    case EmptyAnswer => Err(ValidationEmpty)
    case Valid(final) =>
      var ns := if operation == DELETE || m.clusterScoped || GetNamespace(final) == ""
                then TargetNamespace(o, m, requestNs)
                else GetNamespace(final);
      if GetName(final) == "" then Err(NoName)
      else match env.marshal(final)
        case None => Err(NotMarshalled)
        case Some(text) => Ok(Staged(Identity(GvkOf(o).group, m.resource, m.clusterScoped, ns, GetName(final)),
                                     operation, text))
  }

  function StageOne(env: Env, t: Tagged, requestNs: string): Result<Staged, StageError> {
    match env.decode(t.entry)
    case None => Err(NotDecoded)
    case Some(o) =>
      if StringField(o, "apiVersion") == "" then Err(MissingApiVersion)
      else if StringField(o, "kind") == "" then Err(MissingKind)
      else match env.stageLookup(GvkOf(o))
        case LookupFailed => Err(MappingFailed)
        case NotMapped => Err(ResourceNotFound)
        case Found(m) => StageMapped(env, o, m, t.operation, requestNs)
  }

  // ----- what is sent and what is staged, without naming the functions above -----

  /** An entry is sent to its own namespace, or to the request's if it has none, or to none in
      cluster scope. It is sent as it is, except that a namespaced entry without a namespace gets
      the request's, if there is one and its metadata can hold it. */
  lemma SentExactly(o: Object, m: Mapping, requestNs: string)
    ensures var ns, sent := TargetNamespace(o, m, requestNs), Filled(o, m, requestNs);
            && GetName(sent) == GetName(o)
            && (m.clusterScoped ==> ns == "" && sent == o)
            && (!m.clusterScoped && GetNamespace(o) != "" ==> ns == GetNamespace(o) && sent == o)
            && (!m.clusterScoped && GetNamespace(o) == "" ==>
                  && ns == requestNs
                  && (GetNamespace(sent) == requestNs
                      <==> requestNs == "" || "metadata" !in o || o["metadata"].StrMap?)
                  && (GetNamespace(sent) != requestNs || requestNs == "" ==> sent == o)
                  && (forall f | f in o && f != "metadata" :: f in sent && sent[f] == o[f]))
  {
    SetNamespaceKeepsName(o, requestNs);
    if "metadata" !in o || o["metadata"].StrMap? { SetNamespaceSets(o, requestNs); }
  }

  /** The object that ends up in the transaction: what was sent, for a deletion; else the
      validator's answer to what was sent. */
  ghost predicate Finally(env: Env, o: Object, m: Mapping, operation: string, requestNs: string, final: Object) {
    var ns, sent := TargetNamespace(o, m, requestNs), Filled(o, m, requestNs);
    if operation == "delete" then final == sent else env.validate(m, operation, ns, sent) == Valid(final)
  }

  /** The namespace it is stored in: none in cluster scope; else the one it was sent to, unless the
      validator's answer names another. */
  ghost predicate StoredIn(o: Object, m: Mapping, operation: string, requestNs: string, final: Object, ns: string) {
    if m.clusterScoped then ns == ""
    else if operation != "delete" && GetNamespace(final) != "" then ns == GetNamespace(final)
    else ns == TargetNamespace(o, m, requestNs)
  }

  /** The entry decodes, names a kind that is mapped, and ends up as a named object that can be
      written down: `s` is its identity, its operation and its text. */
  ghost predicate StagesAs(env: Env, t: Tagged, requestNs: string, s: Staged) {
    exists o, gvk, m, final ::
      && env.decode(t.entry) == Some(o)
      && StringField(o, "apiVersion") != "" && StringField(o, "kind") != ""
      && TransactionNames(StringField(o, "apiVersion"), StringField(o, "kind"), gvk)
      && env.stageLookup(gvk) == Found(m) && Finally(env, o, m, t.operation, requestNs, final)
      && GetName(final) != "" && env.marshal(final) == Some(s.value) && s.operation == t.operation
      && s.id.name == GetName(final) && s.id.group == gvk.group && s.id.resource == m.resource
      && s.id.clusterScoped == m.clusterScoped && StoredIn(o, m, t.operation, requestNs, final, s.id.namespace)
  }

  lemma StagesExactly(env: Env, t: Tagged, requestNs: string, s: Staged)
    ensures StageOne(env, t, requestNs) == Ok(s) <==> StagesAs(env, t, requestNs, s)
  {
    if env.decode(t.entry).Some? {
      var o := env.decode(t.entry).value;
      var apiVersion, kind := StringField(o, "apiVersion"), StringField(o, "kind");
      forall g ensures TransactionNames(apiVersion, kind, g) <==> g == GvkOf(o) {
        ParsersReadExactly(apiVersion, kind, g);
      }
      if apiVersion != "" && kind != "" && env.stageLookup(GvkOf(o)).Found? {
        MappedStagesExactly(env, t, o, env.stageLookup(GvkOf(o)).mapping, requestNs, s);
      }
    }
  }

  lemma MappedStagesExactly(env: Env, t: Tagged, o: Object, m: Mapping, requestNs: string, s: Staged)
    ensures StageMapped(env, o, m, t.operation, requestNs) == Ok(s)
            <==> exists final ::
                   && Finally(env, o, m, t.operation, requestNs, final)
                   && GetName(final) != "" && env.marshal(final) == Some(s.value) && s.operation == t.operation
                   && s.id.name == GetName(final) && s.id.group == GvkOf(o).group && s.id.resource == m.resource
                   && s.id.clusterScoped == m.clusterScoped
                   && StoredIn(o, m, t.operation, requestNs, final, s.id.namespace)
  {
    var answer := AnswerFor(env, o, m, t.operation, requestNs);
    forall final ensures Finally(env, o, m, t.operation, requestNs, final) <==> answer == Valid(final) {}
  }

  /** The map a request accumulates. */
  class Resources {
    var entries: map<string, string>

    constructor ()
      ensures entries == map[]
    {
      entries := map[];
    }
  }

  /** Stages one entry into the map, or leaves the map alone and says why not. */
  method StageEntry(env: Env, resources: Resources, t: Tagged, requestNs: string) returns (error: Option<StageError>)
    modifies resources
    ensures match StageOne(env, t, requestNs)
            case Ok(s) => error == None && resources.entries == old(resources.entries)[KeyOf(env, s) := s.value]
            case Err(e) => error == Some(e) && resources.entries == old(resources.entries)
  {
    var decoded := env.decode(t.entry);
    if decoded.None? { return Some(NotDecoded); }
    var obj := decoded.value;
    var apiVersion, kind := StringField(obj, "apiVersion"), StringField(obj, "kind");
    if apiVersion == "" { return Some(MissingApiVersion); }
    if kind == "" { return Some(MissingKind); }
    var gvk := TransactionGvk(apiVersion, kind);
    var found := env.stageLookup(gvk);
    if found.LookupFailed? { return Some(MappingFailed); }
    if found.NotMapped? { return Some(ResourceNotFound); }
    var resource := found.mapping;

    var ns := GetNamespace(obj);
    if ns == "" {
      ns := requestNs;
    }
    if resource.clusterScoped {
      ns := "";
    } else if ns != "" && GetNamespace(obj) == "" {
      obj := SetNamespace(obj, ns);
    }
    assert ns == TargetNamespace(decoded.value, resource, requestNs)
           && obj == Filled(decoded.value, resource, requestNs);
    assert StageOne(env, t, requestNs) == StageMapped(env, decoded.value, resource, t.operation, requestNs);

    if t.operation != DELETE {
      var answer := env.validate(resource, t.operation, ns, obj);
      if answer.Invalid? { return Some(ValidationFailed); }
      if answer.EmptyAnswer? { return Some(ValidationEmpty); }
      obj := answer.obj;
      if resource.clusterScoped {
        ns := "";
      } else if GetNamespace(obj) != "" {
        ns := GetNamespace(obj);
      }
    }

    assert Valid(obj) == AnswerFor(env, decoded.value, resource, t.operation, requestNs);
    var prefix := EtcdKey(gvk, ns, Some(resource), env.core);
    var name := GetName(obj);
    if name == "" { return Some(NoName); }
    var text := env.marshal(obj);
    if text.None? { return Some(NotMarshalled); }
    resources.entries := resources.entries[prefix.value + name + "#" + t.operation := text.value];
    return None;
  }

  // ----- the two passes agree -----

  /** The entry decodes and has a version and a kind, so that both passes look its kind up. */
  predicate NamesKind(env: Env, t: Tagged) {
    var d := env.decode(t.entry);
    d.Some? && StringField(d.value, "apiVersion") != "" && StringField(d.value, "kind") != ""
  }

  /** Assumption, per entry: the mapper answers both passes alike. */
  predicate MappedAlike(env: Env, t: Tagged) {
    NamesKind(env, t) ==>
      var g := GvkOf(env.decode(t.entry).value);
      env.authLookup(g) == env.stageLookup(g)
  }

  /** Assumption, per entry: the decoder built string-keyed metadata. */
  predicate StringKeyed(env: Env, t: Tagged) {
    var d := env.decode(t.entry);
    d.Some? ==> !HasAnyKeyedMetadata(d.value)
  }

  /** Assumption, per entry: the validator's answer, if there is one, is in the namespace the entry
      was sent to, or in none. */
  predicate AnswerStays(env: Env, t: Tagged, ns: string) {
    match env.decode(t.entry)
    case None => true
    case Some(o) =>
      match env.stageLookup(GvkOf(o))
      case Found(m) =>
        t.operation == DELETE
        || NamespaceKept(AnswerFor(env, o, m, t.operation, ns), m, TargetNamespace(o, m, ns))
      case _ => true
  }

  predicate Faithful(env: Env, t: Tagged, ns: string) {
    MappedAlike(env, t) && StringKeyed(env, t) && AnswerStays(env, t, ns)
  }

  /** The entries the first pass skips silently are exactly those the second rejects for want of a
      version, a kind or a mapping; those it cannot decode are those the second cannot. */
  lemma SkippedIsRejected(env: Env, t: Tagged, ns: string)
    requires MappedAlike(env, t)
    ensures NeedOf(env, t, ns) == Skipped
            <==> StageOne(env, t, ns).Err?
                 && StageOne(env, t, ns).error in {MissingApiVersion, MissingKind, MappingFailed, ResourceNotFound}
    ensures NeedOf(env, t, ns) == Undecodable <==> StageOne(env, t, ns) == Err(NotDecoded)
  {
  }

  /** For an entry that stages, the permission its key exercises is the one the first pass asked
      for, exactly when the validator's answer stayed in its namespace. */
  lemma PassesAgreeExactly(env: Env, t: Tagged, ns: string)
    requires MappedAlike(env, t) && StringKeyed(env, t)
    requires StageOne(env, t, ns).Ok?
    ensures NeedOf(env, t, ns) == Needs(AuthorityOf(StageOne(env, t, ns).value)) <==> AnswerStays(env, t, ns)
  {
    var o := env.decode(t.entry).value;
    assert RawNamespace(o, ns) == if GetNamespace(o) != "" then GetNamespace(o) else ns;
  }

  /** What is staged is the validated object: its name is the key's name, its text the value; a
      deletion stages the entry's own object, in its namespace. */
  lemma StagesValidatedObject(env: Env, t: Tagged, ns: string) returns (final: Object)
    requires StageOne(env, t, ns).Ok?
    ensures var s := StageOne(env, t, ns).value; var o := env.decode(t.entry).value;
            && s.operation == t.operation && s.id.name == GetName(final) != "" && env.marshal(final) == Some(s.value)
            && (t.operation != DELETE ==>
                  exists m :: env.stageLookup(GvkOf(o)) == Found(m)
                              && env.validate(m, t.operation, TargetNamespace(o, m, ns), Filled(o, m, ns))
                                  == Valid(final))
            && (t.operation == DELETE ==> GetName(final) == GetName(o)
                                          && (s.id.clusterScoped || s.id.namespace == GetNamespace(final)
                                              || GetNamespace(final) == ""))
            && (!s.id.clusterScoped && GetNamespace(final) != "" ==> s.id.namespace == GetNamespace(final))
            && (s.id.clusterScoped ==> s.id.namespace == "")
  {
    var o := env.decode(t.entry).value;
    var m := env.stageLookup(GvkOf(o)).mapping;
    final := AnswerFor(env, o, m, t.operation, ns).obj;
    SetNamespaceKeepsName(o, TargetNamespace(o, m, ns));
  }

  // ----- staging a whole request -----

  function BindingOf(env: Env, s: Staged): Binding {
    Binding(KeyOf(env, s), s.value)
  }

  function OutcomesOf(env: Env, ts: seq<Tagged>, ns: string): seq<Result<Staged, StageError>> {
    seq(|ts|, i requires 0 <= i < |ts| => StageOne(env, ts[i], ns))
  }

  /** What the entries stage, in order; the first entry that fails decides the error. */
  function StageList(env: Env, ts: seq<Tagged>, ns: string): Result<seq<Staged>, StageError> {
    Collect(OutcomesOf(env, ts, ns))
  }

  function BindingsOf(env: Env, ss: seq<Staged>): seq<Binding> {
    seq(|ss|, i requires 0 <= i < |ss| => BindingOf(env, ss[i]))
  }

  /** Staging a list succeeds exactly when every entry stages, and yields what each entry stages. */
  lemma StageListExact(env: Env, ts: seq<Tagged>, ns: string)
    ensures StageList(env, ts, ns).Ok? <==> forall i | 0 <= i < |ts| :: StageOne(env, ts[i], ns).Ok?
    ensures StageList(env, ts, ns).Ok? ==>
              var ss := StageList(env, ts, ns).value;
              |ss| == |ts| && forall i | 0 <= i < |ts| :: StageOne(env, ts[i], ns) == Ok(ss[i])
  {
    var rs := OutcomesOf(env, ts, ns);
    CollectExact(rs);
    assert forall i | 0 <= i < |ts| :: StageOne(env, ts[i], ns) == rs[i];
  }

  ghost predicate AllWellFormed(env: Env, groups: set<string>, ss: seq<Staged>) {
    forall i | 0 <= i < |ss| :: WellFormed(groups, SlotOf(env.core, ss[i].id)) && '#' !in ss[i].operation
  }

  /** No two entries name the same slot with the same operation. */
  ghost predicate DistinctOperations(env: Env, ss: seq<Staged>) {
    forall i, j | 0 <= i < j < |ss| ::
      SlotOf(env.core, ss[i].id) != SlotOf(env.core, ss[j].id) || ss[i].operation != ss[j].operation
  }

  /** For well-formed identities no operation is lost exactly when no two entries name the same
      slot with the same operation. */
  lemma NoOperationLost(env: Env, groups: set<string>, ss: seq<Staged>)
    requires AllWellFormed(env, groups, ss)
    ensures |Bind(BindingsOf(env, ss))| == |ss| <==> DistinctOperations(env, ss)
  {
    var bs := BindingsOf(env, ss);
    SizeCountsDistinctKeys(bs);
    forall i, j | 0 <= i < j < |ss|
      ensures bs[i].key == bs[j].key
              <==> SlotOf(env.core, ss[i].id) == SlotOf(env.core, ss[j].id) && ss[i].operation == ss[j].operation
    {
      StagedKeyInjective(env.core, groups, ss[i].id, ss[i].operation, ss[j].id, ss[j].operation);
    }
    assert DistinctKeys(bs) <==> DistinctOperations(env, ss);
  }

  /** And then every entry can be read back from the map: its key decodes to its slot and
      operation, and is bound to its text. */
  lemma EveryOperationRecoverable(env: Env, groups: set<string>, ss: seq<Staged>, i: nat)
    requires AllWellFormed(env, groups, ss) && DistinctOperations(env, ss) && i < |ss|
    ensures var m := Bind(BindingsOf(env, ss)); KeyOf(env, ss[i]) in m && m[KeyOf(env, ss[i])] == ss[i].value
    ensures DecodeStaged(groups, KeyOf(env, ss[i])) == Some((SlotOf(env.core, ss[i].id), ss[i].operation))
  {
    var bs := BindingsOf(env, ss);
    NoOperationLost(env, groups, ss);
    SizeCountsDistinctKeys(bs);
    assert bs[i] == BindingOf(env, ss[i]);
    LastWriterWins(bs, i);
    StagedRoundTrip(env.core, groups, ss[i].id, ss[i].operation);
  }

  /** The key was staged by one of the entries, under exactly the permission the first pass asked
      for on behalf of that entry, which was reviewed and granted. */
  ghost predicate KeyAuthorised(env: Env, ts: seq<Tagged>, ns: string, key: string) {
    exists i :: 0 <= i < |ts| && EntryAuthorised(env, ts, ns, i) && KeyOf(env, StageOne(env, ts[i], ns).value) == key
  }

  ghost predicate EntryAuthorised(env: Env, ts: seq<Tagged>, ns: string, i: nat)
    requires i < |ts|
  {
    && StageOne(env, ts[i], ns).Ok?
    && var authority := AuthorityOf(StageOne(env, ts[i], ns).value);
       && NeedOf(env, ts[i], ns) == Needs(authority)
       && authority in Reviewed(env, ts, ns) && env.review(authority) == Allowed
  }

  lemma EveryEntryAuthorised(env: Env, ts: seq<Tagged>, ns: string, i: nat)
    requires Uncached(env, ts, ns) == Pass && i < |ts| && StageOne(env, ts[i], ns).Ok? && Faithful(env, ts[i], ns)
    ensures EntryAuthorised(env, ts, ns, i)
  {
    PassesAgreeExactly(env, ts[i], ns);
    assert NeedsOf(env, ts, ns)[i] == NeedOf(env, ts[i], ns);
    NeedIsAsked(env, NeedsOf(env, ts, ns), i);
    AskedSoFarAllowed(env, NeedsOf(env, ts, ns), AuthorityOf(StageOne(env, ts[i], ns).value));
  }

  /** When both passes succeed, every entry's key exercises the permission the first pass saw
      granted for it, and the staged map holds no other keys. */
  lemma StagedKeysAreAuthorised(env: Env, ts: seq<Tagged>, ns: string)
    requires forall i | 0 <= i < |ts| :: Faithful(env, ts[i], ns)
    requires Uncached(env, ts, ns) == Pass && StageList(env, ts, ns).Ok?
    ensures forall i | 0 <= i < |ts| :: EntryAuthorised(env, ts, ns, i)
    ensures forall key | key in Bind(BindingsOf(env, StageList(env, ts, ns).value)) :: KeyAuthorised(env, ts, ns, key)
  {
    var ss := StageList(env, ts, ns).value;
    var bs := BindingsOf(env, ss);
    StageListExact(env, ts, ns);
    BoundKeys(bs);
    forall i | 0 <= i < |ts| ensures EntryAuthorised(env, ts, ns, i) {
      EveryEntryAuthorised(env, ts, ns, i);
    }
    forall key | key in Bind(bs) ensures KeyAuthorised(env, ts, ns, key) {
      var i :| 0 <= i < |bs| && bs[i].key == key;
      assert EntryAuthorised(env, ts, ns, i) && KeyOf(env, StageOne(env, ts[i], ns).value) == key;
    }
  }

  /** The staged key names, to whoever reads it back, a slot and an operation that were reviewed and
      granted: a permission for the slot's resource in the slot's namespace, in a group of the
      slot's key space, with the operation as its verb. */
  ghost predicate SlotReviewed(env: Env, groups: set<string>, ts: seq<Tagged>, ns: string, key: string) {
    match DecodeStaged(groups, key)
    case None => false
    case Some((slot, operation)) =>
      exists a :: a in Reviewed(env, ts, ns) && env.review(a) == Allowed && a.verb == operation
                  && slot == Slot(SpaceOf(env.core, a.group), a.resource, a.namespace, slot.name)
  }

  lemma DecodedSlotsAreReviewed(env: Env, groups: set<string>, ts: seq<Tagged>, ns: string)
    requires forall i | 0 <= i < |ts| :: Faithful(env, ts[i], ns)
    requires Uncached(env, ts, ns) == Pass && StageList(env, ts, ns).Ok?
    requires AllWellFormed(env, groups, StageList(env, ts, ns).value)
    ensures forall key | key in Bind(BindingsOf(env, StageList(env, ts, ns).value)) ::
              SlotReviewed(env, groups, ts, ns, key)
  {
    var ss := StageList(env, ts, ns).value;
    StagedKeysAreAuthorised(env, ts, ns);
    StageListExact(env, ts, ns);
    forall key | key in Bind(BindingsOf(env, ss)) ensures SlotReviewed(env, groups, ts, ns, key) {
      assert KeyAuthorised(env, ts, ns, key);
      var i :| 0 <= i < |ts| && EntryAuthorised(env, ts, ns, i) && KeyOf(env, StageOne(env, ts[i], ns).value) == key;
      StagedRoundTrip(env.core, groups, ss[i].id, ss[i].operation);
      var final := StagesValidatedObject(env, ts[i], ns);
      assert AuthorityOf(ss[i]) in Reviewed(env, ts, ns);
    }
  }

  /** Why the mapper must answer both passes alike: an entry mapped only in the second pass is
      staged although nothing was reviewed for it. */
  lemma LateMappingEscapesReview(env: Env, t: Tagged, ns: string)
    requires StageOne(env, t, ns).Ok? && !env.authLookup(GvkOf(env.decode(t.entry).value)).Found?
    ensures Uncached(env, [t], ns) == Pass && Reviewed(env, [t], ns) == []
  {
    assert NeedsOf(env, [t], ns) == [Skipped];
    JudgeOne(env, Skipped);
  }
}
