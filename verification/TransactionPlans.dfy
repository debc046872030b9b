/** What a submission asks for and when it reaches the commit, in terms of its body and of what the
    surroundings answer: a reference for the create handler that names none of its steps. */
module TransactionPlans {
  import opened GoStrings
  import opened ApiVersions
  import opened RequestPaths
  import opened StorageKeys
  import opened TransactionEnv
  import opened Authorization
  import opened Bindings
  import opened Staging
  import opened TransactionHandler

  /** The submission has a body that is not blank and decodes to this request, for this namespace. */
  ghost predicate Asks(env: Env, sub: Submission, request: Request, ns: string) {
    && sub.body.Some? && (exists i :: 0 <= i < |sub.body.value| && !IsSpace(sub.body.value[i]))
    && env.decodeBody(sub.body.value) == Some(request)
    && IsFor(sub.handlerNs, RequestNamespace(sub.path), request.namespace, ns)
  }

  /** The body names another namespace than framework or path give. */
  ghost predicate Contradicts(sub: Submission, request: Request) {
    forall ns :: !IsFor(sub.handlerNs, RequestNamespace(sub.path), request.namespace, ns)
  }

  /** A submission parses exactly to what it asks for; otherwise its body is unreadable, blank or
      undecodable, or names another namespace than framework or path give. */
  lemma ParsesExactly(env: Env, sub: Submission, request: Request, ns: string)
    ensures ParseRequest(env, sub) == Ok((request, ns)) <==> Asks(env, sub, request, ns)
    ensures ParseRequest(env, sub) == Err(UnreadableBody) <==> sub.body == None
    ensures ParseRequest(env, sub) == Err(EmptyBody)
            <==> sub.body.Some? && forall i | 0 <= i < |sub.body.value| :: IsSpace(sub.body.value[i])
    ensures ParseRequest(env, sub) == Err(NamespaceMismatch)
            <==> && sub.body.Some? && (exists i :: 0 <= i < |sub.body.value| && !IsSpace(sub.body.value[i]))
                 && env.decodeBody(sub.body.value).Some? && Contradicts(sub, env.decodeBody(sub.body.value).value)
  {
    if sub.body.Some? {
      BlankExactly(sub.body.value);
      var decoded := env.decodeBody(sub.body.value);
      if decoded.Some? { ContradictsExactly(sub, decoded.value, ns); }
    }
  }

  lemma ContradictsExactly(sub: Submission, request: Request, ns: string)
    ensures Resolve(sub.handlerNs, sub.path, request.namespace) == None <==> Contradicts(sub, request)
    ensures Resolve(sub.handlerNs, sub.path, request.namespace) == Some(ns)
            <==> IsFor(sub.handlerNs, RequestNamespace(sub.path), request.namespace, ns)
  {
    forall n
      ensures Resolve(sub.handlerNs, sub.path, request.namespace) == Some(n)
              <==> IsFor(sub.handlerNs, RequestNamespace(sub.path), request.namespace, n)
    {
      ResolveExactly(sub.handlerNs, sub.path, request.namespace, n);
    }
    var r := Resolve(sub.handlerNs, sub.path, request.namespace);
    if r.Some? { assert IsFor(sub.handlerNs, RequestNamespace(sub.path), request.namespace, r.value); }
  }

  // ----- when it reaches the commit -----

  ghost predicate Stageable(env: Env, t: Tagged, ns: string) {
    exists s :: StagesAs(env, t, ns, s)
  }

  lemma StageableExactly(env: Env, t: Tagged, ns: string)
    ensures StageOne(env, t, ns).Ok? <==> Stageable(env, t, ns)
  {
    if StageOne(env, t, ns).Ok? { StagesExactly(env, t, ns, StageOne(env, t, ns).value); }
    if s :| StagesAs(env, t, ns, s) { StagesExactly(env, t, ns, s); }
  }

  ghost predicate AllStage(env: Env, entries: seq<Entry>, operation: string, ns: string) {
    forall entry | entry in entries :: Stageable(env, Tagged(entry, operation), ns)
  }

  /** All entries of all lists are cleared for their operation. */
  ghost predicate RequestCleared(env: Env, request: Request, ns: string) {
    && AllCleared(env, request.creates, "create", ns)
    && AllCleared(env, request.updates, "update", ns)
    && AllCleared(env, request.deletes, "delete", ns)
  }

  /** All entries of all lists can be staged under their operation. */
  ghost predicate RequestStages(env: Env, request: Request, ns: string) {
    && AllStage(env, request.creates, "create", ns)
    && AllStage(env, request.updates, "update", ns)
    && AllStage(env, request.deletes, "delete", ns)
  }

  lemma ListStages(env: Env, request: Request, ns: string, entries: seq<Entry>, operation: string)
    requires forall t | t in Operations(request) :: Stageable(env, t, ns)
    requires forall e | e in entries :: Tagged(e, operation) in Operations(request)
    ensures AllStage(env, entries, operation, ns)
  {
  }

  lemma OperationsHold(request: Request)
    ensures forall e | e in request.creates :: Tagged(e, "create") in Operations(request)
    ensures forall e | e in request.updates :: Tagged(e, "update") in Operations(request)
    ensures forall e | e in request.deletes :: Tagged(e, "delete") in Operations(request)
  {
    forall e | e in request.creates ensures Tagged(e, "create") in Operations(request) {
      OperationsExactly(request, Tagged(e, "create"));
    }
    forall e | e in request.updates ensures Tagged(e, "update") in Operations(request) {
      OperationsExactly(request, Tagged(e, "update"));
    }
    forall e | e in request.deletes ensures Tagged(e, "delete") in Operations(request) {
      OperationsExactly(request, Tagged(e, "delete"));
    }
  }

  lemma RequestStagesExactly(env: Env, request: Request, ns: string)
    ensures StageList(env, Operations(request), ns).Ok? <==> RequestStages(env, request, ns)
  {
    var ts := Operations(request);
    StageListExact(env, ts, ns);
    forall t: Tagged ensures StageOne(env, t, ns).Ok? <==> Stageable(env, t, ns) { StageableExactly(env, t, ns); }
    if StageList(env, ts, ns).Ok? {
      OperationsHold(request);
      ListStages(env, request, ns, request.creates, "create");
      ListStages(env, request, ns, request.updates, "update");
      ListStages(env, request, ns, request.deletes, "delete");
    }
    if RequestStages(env, request, ns) {
      forall i | 0 <= i < |ts| ensures StageOne(env, ts[i], ns).Ok? { EntryStages(env, request, ns, ts[i]); }
    }
  }

  lemma EntryStages(env: Env, request: Request, ns: string, t: Tagged)
    requires RequestStages(env, request, ns) && t in Operations(request)
    ensures Stageable(env, t, ns)
  {
    OperationsExactly(request, t);
    assert t == Tagged(t.entry, t.operation);
  }

  ghost predicate NonEmpty(request: Request) {
    request.creates != [] || request.updates != [] || request.deletes != []
  }

  /** End to end: a submission reaches the commit exactly when it asks for something non-empty of
      which everything is cleared and can be staged; it is answered 403 exactly when it asks for
      something not cleared, and 400 whenever it is refused otherwise. */
  lemma AcceptedExactly(env: Env, sub: Submission)
    ensures Plan(env, sub).Ok?
            <==> exists request, ns ::
                   && Asks(env, sub, request, ns) && NonEmpty(request)
                   && RequestCleared(env, request, ns) && RequestStages(env, request, ns)
    ensures Plan(env, sub).Err? && StatusOf(Plan(env, sub).error) == 403
            <==> exists request, ns :: Asks(env, sub, request, ns) && !RequestCleared(env, request, ns)
    ensures Plan(env, sub).Err? ==> StatusOf(Plan(env, sub).error) in {400, 403}
  {
    forall request, ns ensures Asks(env, sub, request, ns) <==> ParseRequest(env, sub) == Ok((request, ns)) {
      ParsesExactly(env, sub, request, ns);
    }
    if ParseRequest(env, sub).Ok? {
      var (request, ns) := ParseRequest(env, sub).value;
      AuthorisedExactly(env, request, ns);
      RequestStagesExactly(env, request, ns);
      OperationsEmpty(request);
      StageListExact(env, Operations(request), ns);
      if StageList(env, Operations(request), ns).Ok? {
        NonEmptyMap(env, StageList(env, Operations(request), ns).value);
      }
    }
  }

  // ----- what it plans -----

  /** The record is planned for the namespace the submission asks for: the framework's if it gives
      one, else the path's, and in any case the body's if the body names one. */
  lemma PlannedNamespaceExactly(env: Env, sub: Submission, request: Request)
    requires Plan(env, sub).Ok? && sub.body.Some? && env.decodeBody(sub.body.value) == Some(request)
    ensures var p := Plan(env, sub).value;
            && p.TransactionRecord? && Asks(env, sub, request, p.namespace)
            && (sub.handlerNs != "" ==> p.namespace == sub.handlerNs)
            && (sub.handlerNs == "" && RequestNamespace(sub.path) != "" ==> p.namespace == RequestNamespace(sub.path))
            && (request.namespace != "" ==> p.namespace == request.namespace)
  {
    PlannedName(env, sub);
    ParsesExactly(env, sub, request, Plan(env, sub).value.namespace);
  }

  predicate EndsWith(s: string, end: string) {
    |end| <= |s| && s[|s| - |end|..] == end
  }

  lemma KeyEnds(env: Env, s: Staged)
    ensures EndsWith(KeyOf(env, s), "#" + s.operation)
  {
    assert KeyOf(env, s) == ObjectKey(env.core, s.id) + ("#" + s.operation);
  }

  /** The permission a staged operation needs, as the access review names it. */
  ghost predicate Granted(env: Env, request: Request, ns: string, s: Staged, verb: string) {
    var permission := AuthKey(s.id.group, s.id.resource, verb, s.id.namespace);
    permission in Reviewed(env, Operations(request), ns) && env.review(permission) == Allowed
  }

  /** The entry is staged for the operation under this key, which ends in the operation, and the
      permission for the operation on its resource and in its namespace was reviewed and granted. */
  ghost predicate StagedAndGranted(env: Env, request: Request, ns: string, entry: Entry, operation: string,
                                   key: string)
  {
    exists s ::
      && StagesAs(env, Tagged(entry, operation), ns, s) && key == KeyOf(env, s) && EndsWith(key, "#" + operation)
      && Granted(env, request, ns, s, operation)
  }

  lemma KeyIsBound(env: Env, ts: seq<Tagged>, ns: string, i: nat)
    requires i < |ts| && StageList(env, ts, ns).Ok?
    ensures StageOne(env, ts[i], ns).Ok?
    ensures KeyOf(env, StageOne(env, ts[i], ns).value) in Bind(BindingsOf(env, StageList(env, ts, ns).value))
  {
    var ss := StageList(env, ts, ns).value;
    StageListExact(env, ts, ns);
    BoundKeys(BindingsOf(env, ss));
    assert BindingsOf(env, ss)[i].key == KeyOf(env, ss[i]);
    assert Written(BindingsOf(env, ss), KeyOf(env, ss[i]));
  }

  lemma OperationIsStaged(env: Env, request: Request, ns: string, i: nat)
    requires var ts := Operations(request);
             && i < |ts| && Uncached(env, ts, ns) == Pass && Faithful(env, ts[i], ns) && StageOne(env, ts[i], ns).Ok?
    ensures var t := Operations(request)[i];
            StagedAndGranted(env, request, ns, t.entry, t.operation, KeyOf(env, StageOne(env, t, ns).value))
  {
    var t := Operations(request)[i];
    var s := StageOne(env, t, ns).value;
    EveryEntryAuthorised(env, Operations(request), ns, i);
    StagesExactly(env, t, ns, s);
    KeyEnds(env, s);
    assert t == Tagged(t.entry, t.operation);
    assert s.operation == t.operation;
    assert Granted(env, request, ns, s, t.operation);
  }

  /** All that the planned request holds for its operations. */
  lemma PlanHolds(env: Env, sub: Submission, request: Request, ns: string)
    requires Plan(env, sub).Ok? && Asks(env, sub, request, ns)
    ensures ParseRequest(env, sub) == Ok((request, ns)) && Plan(env, sub).value.TransactionRecord?
    ensures Uncached(env, Operations(request), ns) == Pass && StageList(env, Operations(request), ns).Ok?
    ensures Plan(env, sub).value.resources == Bind(BindingsOf(env, StageList(env, Operations(request), ns).value))
  {
    ParsesExactly(env, sub, request, ns);
  }

  ghost predicate ListPlanned(env: Env, request: Request, ns: string, entries: seq<Entry>, operation: string,
                              resources: map<string, string>)
  {
    forall e | e in entries :: exists key ::
      key in resources && StagedAndGranted(env, request, ns, e, operation, key)
  }

  ghost predicate FromList(env: Env, request: Request, ns: string, entries: seq<Entry>, operation: string, key: string)
  {
    exists entry :: entry in entries && StagedAndGranted(env, request, ns, entry, operation, key)
  }

  /** Every creation of a planned request is staged under a key ending in `#create` and was reviewed
      under the verb "create", likewise for updates and deletions, and no other keys are planned. */
  lemma PlannedFromLists(env: Env, sub: Submission, request: Request, ns: string)
    requires Plan(env, sub).Ok? && FaithfulTo(env, sub) && Asks(env, sub, request, ns)
    ensures Plan(env, sub).value.TransactionRecord?
    ensures var resources := Plan(env, sub).value.resources;
            && ListPlanned(env, request, ns, request.creates, "create", resources)
            && ListPlanned(env, request, ns, request.updates, "update", resources)
            && ListPlanned(env, request, ns, request.deletes, "delete", resources)
            && forall key | key in resources ::
                 || FromList(env, request, ns, request.creates, "create", key)
                 || FromList(env, request, ns, request.updates, "update", key)
                 || FromList(env, request, ns, request.deletes, "delete", key)
  {
    PlanHolds(env, sub, request, ns);
    OperationsHold(request);
    EntriesArePlanned(env, request, ns, "create", request.creates);
    EntriesArePlanned(env, request, ns, "update", request.updates);
    EntriesArePlanned(env, request, ns, "delete", request.deletes);
    forall key | key in Plan(env, sub).value.resources
      ensures || FromList(env, request, ns, request.creates, "create", key)
              || FromList(env, request, ns, request.updates, "update", key)
              || FromList(env, request, ns, request.deletes, "delete", key)
    {
      KeyIsFromList(env, request, ns, key);
    }
  }

  lemma EntriesArePlanned(env: Env, request: Request, ns: string, operation: string, entries: seq<Entry>)
    requires var ts := Operations(request);
             && Uncached(env, ts, ns) == Pass && StageList(env, ts, ns).Ok?
             && (forall i | 0 <= i < |ts| :: Faithful(env, ts[i], ns))
             && forall e | e in entries :: Tagged(e, operation) in ts
    ensures ListPlanned(env, request, ns, entries, operation,
                        Bind(BindingsOf(env, StageList(env, Operations(request), ns).value)))
  {
    var ts := Operations(request);
    var resources := Bind(BindingsOf(env, StageList(env, ts, ns).value));
    forall e | e in entries
      ensures exists key :: key in resources && StagedAndGranted(env, request, ns, e, operation, key)
    {
      var i :| 0 <= i < |ts| && ts[i] == Tagged(e, operation);
      KeyIsBound(env, ts, ns, i);
      OperationIsStaged(env, request, ns, i);
    }
  }

  lemma KeyIsFromList(env: Env, request: Request, ns: string, key: string)
    requires var ts := Operations(request);
             && Uncached(env, ts, ns) == Pass && StageList(env, ts, ns).Ok?
             && (forall i | 0 <= i < |ts| :: Faithful(env, ts[i], ns))
             && key in Bind(BindingsOf(env, StageList(env, ts, ns).value))
    ensures || FromList(env, request, ns, request.creates, "create", key)
            || FromList(env, request, ns, request.updates, "update", key)
            || FromList(env, request, ns, request.deletes, "delete", key)
  {
    var ts := Operations(request);
    PlannedResources(env, ts, ns);
    var i :| 0 <= i < |ts| && KeyOf(env, StageOne(env, ts[i], ns).value) == key;
    OperationIsStaged(env, request, ns, i);
    OperationsExactly(request, ts[i]);
    assert ts[i] in ts;
  }
}
