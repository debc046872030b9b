/** The create handler of a transaction: parse, authorise everything, stage everything, and commit
    once with one compare-and-put. */
module TransactionHandler {
  import opened GoStrings
  import opened RequestPaths
  import opened EtcdStore
  import opened TransactionEnv
  import opened Authorization
  import opened Bindings
  import opened Outcomes
  import opened Staging

  /** What arrives: the framework's namespace and name, the URL path, the body if it can be read,
      and the name generated from the clock. */
  datatype Submission = Submission(handlerNs: string, handlerName: string, path: string, body: Option<string>,
                                   generated: string)

  /** What etcd holds: a transaction's record, or anything else under other keys. */
  datatype Payload =
    | TransactionRecord(namespace: string, name: string, resources: map<string, string>)
    | OtherRecord(text: string)

  const TRANSACTIONS := "/harikube/transaction/"

  function TransactionKey(namespace: string, name: string): string {
    TRANSACTIONS + namespace + "/" + name
  }

  /** The namespace `nsB` continues `nsA` past a slash, and the name beside `nsA` makes up for it. */
  predicate Continues(nsA: string, nameA: string, nsB: string, nameB: string) {
    nsA + "/" <= nsB && nameA == nsB[|nsA| + 1..] + "/" + nameB
  }

  /** Keys are equal exactly when the transactions are the same, or one namespace continues the
      other past a slash and the names make up for it. */
  lemma TransactionKeysEqualExactly(nsA: string, nameA: string, nsB: string, nameB: string)
    ensures TransactionKey(nsA, nameA) == TransactionKey(nsB, nameB)
            <==> || (nsA == nsB && nameA == nameB)
                 || Continues(nsA, nameA, nsB, nameB)
                 || Continues(nsB, nameB, nsA, nameA)
  {
    var a, b := nsA + "/" + nameA, nsB + "/" + nameB;
    assert TransactionKey(nsA, nameA) == TRANSACTIONS + a && TransactionKey(nsB, nameB) == TRANSACTIONS + b;
    assert TransactionKey(nsA, nameA)[|TRANSACTIONS|..] == a && TransactionKey(nsB, nameB)[|TRANSACTIONS|..] == b;
    if |nsA| == |nsB| {
      if a == b { assert nsA == a[..|nsA|] == nsB && nameA == a[|nsA| + 1..] == nameB; }
    } else if |nsA| < |nsB| {
      ShorterContinues(nsA, nameA, nsB, nameB);
    } else {
      ShorterContinues(nsB, nameB, nsA, nameA);
    }
  }

  lemma ShorterContinues(nsA: string, nameA: string, nsB: string, nameB: string)
    requires |nsA| < |nsB|
    ensures nsA + "/" + nameA == nsB + "/" + nameB <==> Continues(nsA, nameA, nsB, nameB)
  {
    var a, b := nsA + "/" + nameA, nsB + "/" + nameB;
    var n := |nsA| + 1;
    assert a[..n] == nsA + "/" && a[n..] == nameA;
    assert b[..n] == nsB[..n] && b[n..] == nsB[n..] + "/" + nameB;
    assert a == a[..n] + a[n..] && b == b[..n] + b[n..];
  }

  /** Transactions in slash-free namespaces have one key each, whatever their names. */
  lemma TransactionKeyInjective(nsA: string, nameA: string, nsB: string, nameB: string)
    requires '/' !in nsA && '/' !in nsB
    ensures TransactionKey(nsA, nameA) == TransactionKey(nsB, nameB) <==> nsA == nsB && nameA == nameB
  {
    TransactionKeysEqualExactly(nsA, nameA, nsB, nameB);
    ContinuedHasSlash(nsA, nsB);
    ContinuedHasSlash(nsB, nsA);
  }

  lemma ContinuedHasSlash(a: string, b: string)
    ensures a + "/" <= b ==> '/' in b
  {
    if a + "/" <= b { assert b[|a|] == '/'; }
  }

  /** Two namespaces can have transactions with one key exactly when one continues the other past a
      slash. */
  lemma NamespacesCollideExactly(nsA: string, nsB: string)
    requires nsA != nsB
    ensures (exists nameA, nameB :: TransactionKey(nsA, nameA) == TransactionKey(nsB, nameB))
            <==> nsA + "/" <= nsB || nsB + "/" <= nsA
  {
    if nameA, nameB :| TransactionKey(nsA, nameA) == TransactionKey(nsB, nameB) {
      TransactionKeysEqualExactly(nsA, nameA, nsB, nameB);
    }
    if nsA + "/" <= nsB {
      TransactionKeysEqualExactly(nsA, nsB[|nsA| + 1..] + "/" + "", nsB, "");
      assert Continues(nsA, nsB[|nsA| + 1..] + "/" + "", nsB, "");
    }
    if nsB + "/" <= nsA {
      TransactionKeysEqualExactly(nsA, "", nsB, nsA[|nsB| + 1..] + "/" + "");
      assert Continues(nsB, nsA[|nsB| + 1..] + "/" + "", nsA, "");
    }
  }

  /** A slash in the namespace, which only a body can bring in (`SlashComesFromBody`), makes
      different transactions share a key. */
  lemma SlashedNamespaceCollides(namespace: string, part: string, name: string)
    ensures TransactionKey(namespace + "/" + part, name) == TransactionKey(namespace, part + "/" + name)
    ensures namespace + "/" + part != namespace
  {
    assert TRANSACTIONS + (namespace + "/" + part) + "/" + name == TRANSACTIONS + namespace + "/" + (part + "/" + name);
  }

  // ----- what a submission asks for -----

  datatype Reason =
    | UnreadableBody | EmptyBody | UndecodableBody | NamespaceMismatch
    | NotAuthorised | BadResource(error: StageError) | EmptySpec

  function StatusOf(reason: Reason): int {
    if reason.NotAuthorised? then 403 else 400
  }

  function ParseRequest(env: Env, sub: Submission): Result<(Request, string), Reason> {
    match sub.body
    case None => Err(UnreadableBody)
    case Some(body) =>
      if TrimSpace(body) == "" then Err(EmptyBody)
      else match env.decodeBody(body)
        case None => Err(UndecodableBody)
        case Some(request) =>
          match Resolve(sub.handlerNs, sub.path, request.namespace)
          case None => Err(NamespaceMismatch)
          case Some(ns) => Ok((request, ns))
  }

  function NameFor(sub: Submission, request: Request): string {
    if request.name != "" then request.name else if sub.handlerName != "" then sub.handlerName else sub.generated
  }

  /** The one record a submission asks to commit, or why it is refused before the store is touched. */
  function Plan(env: Env, sub: Submission): Result<Payload, Reason> {
    match ParseRequest(env, sub)
    case Err(r) => Err(r)
    case Ok((request, ns)) =>
      var ops := Operations(request);
      if Uncached(env, ops, ns) != Pass then Err(NotAuthorised)
      else match StageList(env, ops, ns)
        case Err(e) => Err(BadResource(e))
        case Ok(ss) =>
          if |Bind(BindingsOf(env, ss))| == 0 then Err(EmptySpec)
          else Ok(TransactionRecord(ns, NameFor(sub, request), Bind(BindingsOf(env, ss))))
  }

  /** All or nothing: a submission reaches the commit exactly when it parses and every entry of
      all three lists is authorised and stages, and there is at least one entry. */
  lemma CommitsExactlyWhen(env: Env, sub: Submission)
    ensures Plan(env, sub).Ok? <==>
            && ParseRequest(env, sub).Ok?
            && var (request, ns) := ParseRequest(env, sub).value; var ops := Operations(request);
            && (forall i | 0 <= i < |ops| :: VerdictOf(env, NeedOf(env, ops[i], ns)) == Pass)
            && (forall i | 0 <= i < |ops| :: StageOne(env, ops[i], ns).Ok?)
            && (request.creates != [] || request.updates != [] || request.deletes != [])
  {
    if ParseRequest(env, sub).Ok? {
      var (request, ns) := ParseRequest(env, sub).value;
      OperationsEmpty(request);
      PassMeansAllAllowed(env, Operations(request), ns);
      StageListExact(env, Operations(request), ns);
      if StageList(env, Operations(request), ns).Ok? {
        NonEmptyMap(env, StageList(env, Operations(request), ns).value);
      }
    }
  }

  /** A submission is answered 403 exactly when it parses and some entry fails authorisation. */
  lemma ForbiddenExactlyWhen(env: Env, sub: Submission)
    ensures Plan(env, sub).Err? && StatusOf(Plan(env, sub).error) == 403 <==>
            && ParseRequest(env, sub).Ok?
            && var (request, ns) := ParseRequest(env, sub).value; var ops := Operations(request);
            exists i :: 0 <= i < |ops| && VerdictOf(env, NeedOf(env, ops[i], ns)) != Pass
  {
    if ParseRequest(env, sub).Ok? {
      var (request, ns) := ParseRequest(env, sub).value;
      PassMeansAllAllowed(env, Operations(request), ns);
    }
  }

  /** The planned record has the resolved namespace and the first name given. */
  lemma PlannedName(env: Env, sub: Submission)
    requires Plan(env, sub).Ok?
    ensures var (request, ns) := ParseRequest(env, sub).value; var p := Plan(env, sub).value;
            && p.TransactionRecord? && p.namespace == ns
            && (request.name != "" ==> p.name == request.name)
            && (request.name == "" && sub.handlerName != "" ==> p.name == sub.handlerName)
            && (request.name == "" && sub.handlerName == "" ==> p.name == sub.generated)
            && p.resources == Bind(BindingsOf(env, StageList(env, Operations(request), ns).value))
  {
  }

  /** The body, if it is there and decodes, gives the transaction a name, or the framework does. */
  predicate Named(env: Env, sub: Submission) {
    || sub.handlerName != ""
    || (sub.body.Some? && env.decodeBody(sub.body.value).Some? && env.decodeBody(sub.body.value).value.name != "")
  }

  /** The same submission at another time: only what the clock generates and what the handler sees
      of its surroundings may differ, the decoding of the body aside. */
  predicate Resubmission(env: Env, sub: Submission, env': Env, sub': Submission) {
    && sub' == sub.(generated := sub'.generated)
    && (sub.body.Some? ==> env'.decodeBody(sub.body.value) == env.decodeBody(sub.body.value))
  }

  /** A submission that is planned again has the same key exactly when it names its transaction, or
      the clock generates the same name. */
  lemma ResubmissionSharesKey(env: Env, sub: Submission, env': Env, sub': Submission)
    requires Resubmission(env, sub, env', sub') && Plan(env, sub).Ok? && Plan(env', sub').Ok?
    ensures var p, p' := Plan(env, sub).value, Plan(env', sub').value;
            && p.TransactionRecord? && p'.TransactionRecord? && p'.namespace == p.namespace
            && (TransactionKey(p'.namespace, p'.name) == TransactionKey(p.namespace, p.name)
                <==> Named(env, sub) || sub'.generated == sub.generated)
  {
    PlannedName(env, sub);
    PlannedName(env', sub');
    var p, p' := Plan(env, sub).value, Plan(env', sub').value;
    SameNamespaceKeys(p.namespace, p'.name, p.name);
  }

  lemma SameNamespaceKeys(namespace: string, nameA: string, nameB: string)
    ensures TransactionKey(namespace, nameA) == TransactionKey(namespace, nameB) <==> nameA == nameB
  {
    TransactionKeysEqualExactly(namespace, nameA, namespace, nameB);
  }

  /** The planned resources hold, under the key of every entry, what the last entry with that key
      stages; and nothing else. */
  lemma PlannedResources(env: Env, ops: seq<Tagged>, ns: string)
    requires StageList(env, ops, ns).Ok?
    ensures forall i | 0 <= i < |ops| :: StageOne(env, ops[i], ns).Ok?
    ensures var m := Bind(BindingsOf(env, StageList(env, ops, ns).value));
            && (forall key | key in m ::
                  exists i :: 0 <= i < |ops| && KeyOf(env, StageOne(env, ops[i], ns).value) == key)
            && (forall i | 0 <= i < |ops| && LastOfItsKey(env, ops, ns, i) ::
                  var s := StageOne(env, ops[i], ns).value; KeyOf(env, s) in m && m[KeyOf(env, s)] == s.value)
  {
    var ss := StageList(env, ops, ns).value;
    var bs := BindingsOf(env, ss);
    StageListExact(env, ops, ns);
    BoundKeys(bs);
    forall key | key in Bind(bs)
      ensures exists i :: 0 <= i < |ops| && KeyOf(env, StageOne(env, ops[i], ns).value) == key
    {
      var i :| 0 <= i < |bs| && bs[i].key == key;
      assert KeyOf(env, StageOne(env, ops[i], ns).value) == key;
    }
    forall i | 0 <= i < |ops| && LastOfItsKey(env, ops, ns, i)
      ensures bs[i].key in Bind(bs) && Bind(bs)[bs[i].key] == bs[i].value
      ensures bs[i] == BindingOf(env, StageOne(env, ops[i], ns).value)
    {
      assert LastUnderKey(bs, i);
      LastWriterWins(bs, i);
    }
  }

  /** No later entry stages under the same key. */
  ghost predicate LastOfItsKey(env: Env, ts: seq<Tagged>, ns: string, i: nat)
    requires i < |ts| && forall j | 0 <= j < |ts| :: StageOne(env, ts[j], ns).Ok?
  {
    forall j | i < j < |ts| :: KeyOf(env, StageOne(env, ts[j], ns).value) != KeyOf(env, StageOne(env, ts[i], ns).value)
  }

  /** Given that everything is authorised and stages, the empty-spec answer means all lists are empty. */
  lemma EmptySpecExactlyWhen(env: Env, sub: Submission)
    requires ParseRequest(env, sub).Ok?
    requires var (request, ns) := ParseRequest(env, sub).value;
             Uncached(env, Operations(request), ns) == Pass && StageList(env, Operations(request), ns).Ok?
    ensures var (request, _) := ParseRequest(env, sub).value;
            Plan(env, sub) == Err(EmptySpec) <==> request.creates == request.updates == request.deletes == []
  {
    var (request, ns) := ParseRequest(env, sub).value;
    OperationsEmpty(request);
    StageListExact(env, Operations(request), ns);
    NonEmptyMap(env, StageList(env, Operations(request), ns).value);
  }

  lemma OperationsEmpty(request: Request)
    ensures |Operations(request)| == |request.creates| + |request.updates| + |request.deletes|
  {
    OperationsInOrder(request);
  }

  lemma NonEmptyMap(env: Env, ss: seq<Staged>)
    ensures |Bind(BindingsOf(env, ss))| == 0 <==> ss == []
  {
    if ss != [] {
      var bs := BindingsOf(env, ss);
      BoundKeys(bs);
      assert Written(bs, bs[0].key);
      assert bs[0].key in Bind(bs);
    }
  }

  /** The assumptions about the surroundings hold for every entry of the submission. */
  ghost predicate FaithfulTo(env: Env, sub: Submission) {
    ParseRequest(env, sub).Ok? ==>
      var (request, ns) := ParseRequest(env, sub).value;
      forall i | 0 <= i < |Operations(request)| :: Faithful(env, Operations(request)[i], ns)
  }

  /** The key comes from an entry of the submission whose permission was reviewed and granted. */
  ghost predicate ResourceAuthorised(env: Env, sub: Submission, key: string) {
    ParseRequest(env, sub).Ok?
    && var (request, ns) := ParseRequest(env, sub).value;
       KeyAuthorised(env, Operations(request), ns, key)
  }

  /** End to end: every resource key of a committed record names an operation that was reviewed
      and granted. */
  lemma PlannedKeysAreAuthorised(env: Env, sub: Submission)
    requires Plan(env, sub).Ok? && FaithfulTo(env, sub)
    ensures forall key | key in Plan(env, sub).value.resources :: ResourceAuthorised(env, sub, key)
  {
    var (request, ns) := ParseRequest(env, sub).value;
    StagedKeysAreAuthorised(env, Operations(request), ns);
  }

  /** And, for well-formed entries, so is the slot that the key is read back as. */
  lemma PlannedSlotsAreReviewed(env: Env, groups: set<string>, sub: Submission)
    requires Plan(env, sub).Ok? && FaithfulTo(env, sub)
    requires var (request, ns) := ParseRequest(env, sub).value;
             AllWellFormed(env, groups, StageList(env, Operations(request), ns).value)
    ensures var (request, ns) := ParseRequest(env, sub).value;
            forall key | key in Plan(env, sub).value.resources ::
              SlotReviewed(env, groups, Operations(request), ns, key)
  {
    var (request, ns) := ParseRequest(env, sub).value;
    DecodedSlotsAreReviewed(env, groups, Operations(request), ns);
  }

  // ----- the commit exchange -----

  /** What happens to the commit on its way: delivered and answered, or an error, or an empty
      reply, each of these with or without the put having been applied. */
  datatype Link = Delivered | Lost(applied: bool) | Blank(applied: bool)

  datatype Reply = Answered(response: TxnResponse) | TransportError | NoReply

  function Reaches(link: Link): bool {
    link.Delivered? || link.applied
  }

  function Exchange(s: Store<Payload>, payload: Payload, link: Link): (Store<Payload>, Reply)
    requires payload.TransactionRecord?
  {
    var (s', r) := PutIfAbsent(s, TransactionKey(payload.namespace, payload.name), payload);
    (if Reaches(link) then s' else s,
     match link case Delivered => Answered(r) case Lost(_) => TransportError case Blank(_) => NoReply)
  }

  datatype Response = Failure(status: int) | Created(namespace: string, name: string, resourceVersion: nat)

  function Answer(payload: Payload, reply: Reply): Response
    requires payload.TransactionRecord?
  {
    match reply
    case TransportError => Failure(500)
    case NoReply => Failure(500)
    case Answered(r) => if !r.succeeded then Failure(500) else Created(payload.namespace, payload.name, r.revision)
  }

  /** A commit is answered 201 exactly when it is delivered and its key was free; the answer names the
      record's namespace and name and the revision of its put. Anything else is answered 500. */
  lemma AnswerExactly(s: Store<Payload>, payload: Payload, link: Link)
    requires Consistent(s) && payload.TransactionRecord?
    ensures var (s', reply) := Exchange(s, payload, link);
            var r, key := Answer(payload, reply), "/harikube/transaction/" + payload.namespace + "/" + payload.name;
            && (r.Created? <==> link.Delivered? && key !in s.kv)
            && (r.Created? ==> key in s'.kv && s'.kv[key].value == payload
                               && r == Created(payload.namespace, payload.name, s'.kv[key].modRevision))
            && (!r.Created? ==> r == Failure(500))
  {
    PutIfAbsentCreates(s, TransactionKey(payload.namespace, payload.name), payload);
  }

  method Commit(store: Etcd<Payload>, namespace: string, name: string, resources: map<string, string>, link: Link)
    returns (reply: Reply)
    modifies store
    ensures (store.State(), reply) == Exchange(old(store.State()), TransactionRecord(namespace, name, resources), link)
  {
    var txnKey := TransactionKey(namespace, name);
    if !Reaches(link) {
      return if link.Lost? then TransportError else NoReply;
    }
    var response := store.TxnPutIfAbsent(txnKey, TransactionRecord(namespace, name, resources));
    return match link case Delivered => Answered(response) case Lost(_) => TransportError case Blank(_) => NoReply;
  }

  // ----- the handler -----

  lemma BindStaged(env: Env, ss: seq<Staged>, s: Staged)
    ensures Bind(BindingsOf(env, ss + [s])) == Bind(BindingsOf(env, ss))[KeyOf(env, s) := s.value]
  {
    BindSnoc(BindingsOf(env, ss), BindingOf(env, s));
    assert BindingsOf(env, ss + [s]) == BindingsOf(env, ss) + [BindingOf(env, s)];
  }

  /** The map holds what the collected outcomes leave behind. */
  ghost predicate Holds(env: Env, resources: Resources, outcomes: seq<Result<Staged, StageError>>)
    reads resources
  {
    Collect(outcomes).Ok? && resources.entries == Bind(BindingsOf(env, Collect(outcomes).value))
  }

  /** The outcome of one more entry, after outcomes that all succeeded. */
  lemma CollectStep(env: Env, done: seq<Result<Staged, StageError>>, r: Result<Staged, StageError>,
                    later: seq<Result<Staged, StageError>>)
    requires Collect(done).Ok?
    ensures match r
            case Err(e) => Collect(done + [r] + later) == Err(e)
            case Ok(s) => Collect(done + [r]) == Ok(Collect(done).value + [s])
                          && Bind(BindingsOf(env, Collect(done).value + [s]))
                             == Bind(BindingsOf(env, Collect(done).value))[KeyOf(env, s) := s.value]
  {
    CollectOne(r);
    CollectAppend(done, [r]);
    CollectAppend(done + [r], later);
    if r.Ok? { BindStaged(env, Collect(done).value, r.value); }
  }

  /** The inner staging loop: one list, after entries with the outcomes `seen`. */
  method StageBatch(env: Env, resources: Resources, items: seq<Entry>, operation: string, ns: string,
                    ghost seen: seq<Result<Staged, StageError>>)
    returns (error: Option<StageError>)
    requires Holds(env, resources, seen)
    modifies resources
    ensures var all := seen + OutcomesOf(env, Tag(items, operation), ns);
            match error
            case Some(e) => Collect(all) == Err(e)
            case None => Holds(env, resources, all)
  {
    ghost var todo := OutcomesOf(env, Tag(items, operation), ns);
    ghost var all, done := seen + todo, seen;
    for i := 0 to |items|
      invariant done + todo[i..] == all
      invariant Holds(env, resources, done)
    {
      assert done + [todo[i]] + todo[i + 1..] == all;
      CollectStep(env, done, todo[i], todo[i + 1..]);
      var failed := StageEntry(env, resources, Tagged(items[i], operation), ns);
      if failed.Some? {
        return failed;
      }
      done := done + [todo[i]];
    }
    assert done == all;
    return None;
  }

  lemma OutcomesOfFlatten(env: Env, batches: seq<Batch>, b: nat, ns: string)
    requires b < |batches|
    ensures OutcomesOf(env, Flatten(batches[b..]), ns)
            == OutcomesOf(env, Tag(batches[b].items, batches[b].operation), ns)
                + OutcomesOf(env, Flatten(batches[b + 1..]), ns)
  {
    assert batches[b..][1..] == batches[b + 1..];
    var now, later := Tag(batches[b].items, batches[b].operation), Flatten(batches[b + 1..]);
    assert Flatten(batches[b..]) == now + later;
    assert OutcomesOf(env, now + later, ns) == OutcomesOf(env, now, ns) + OutcomesOf(env, later, ns);
  }

  /** The staging loops: all lists in order, up to the first entry that fails. */
  method StageBatches(env: Env, resources: Resources, batches: seq<Batch>, ns: string)
    returns (error: Option<StageError>)
    requires resources.entries == map[]
    modifies resources
    ensures match StageList(env, Flatten(batches), ns)
            case Ok(ss) => error == None && resources.entries == Bind(BindingsOf(env, ss))
            case Err(e) => error == Some(e)
  {
    ghost var seen: seq<Result<Staged, StageError>> := [];
    ghost var all := OutcomesOf(env, Flatten(batches), ns);
    assert batches[0..] == batches;
    for b := 0 to |batches|
      invariant seen + OutcomesOf(env, Flatten(batches[b..]), ns) == all
      invariant Holds(env, resources, seen)
    {
      ghost var now := OutcomesOf(env, Tag(batches[b].items, batches[b].operation), ns);
      ghost var later := OutcomesOf(env, Flatten(batches[b + 1..]), ns);
      OutcomesOfFlatten(env, batches, b, ns);
      assert seen + now + later == all;
      CollectAppend(seen + now, later);
      var failed := StageBatch(env, resources, batches[b].items, batches[b].operation, ns, seen);
      if failed.Some? {
        return failed;
      }
      seen := seen + now;
    }
    assert batches[|batches|..] == [];
    assert seen == all;
    return None;
  }

  /** Parses a submission and resolves its namespace. */
  method ParseTransactionAndNamespace(env: Env, sub: Submission) returns (r: Result<(Request, string), Reason>)
    ensures r == ParseRequest(env, sub)
  {
    if sub.body.None? { return Err(UnreadableBody); }
    if TrimSpace(sub.body.value) == "" { return Err(EmptyBody); }
    var transaction := env.decodeBody(sub.body.value);
    if transaction.None? { return Err(UndecodableBody); }
    var ns := ResolveTransactionNamespace(sub.handlerNs, sub.path, transaction.value.namespace);
    if ns.None? { return Err(NamespaceMismatch); }
    return Ok((transaction.value, ns.value));
  }

  /** The whole handler. The store changes only by the one commit of a submission whose every
      entry was authorised and staged; a refusal at any entry leaves it as it was. */
  method CreateHandler(env: Env, store: Etcd<Payload>, sub: Submission, link: Link) returns (response: Response)
    modifies store
    ensures match Plan(env, sub)
            case Err(reason) => response == Failure(StatusOf(reason)) && store.State() == old(store.State())
            case Ok(payload) =>
              var (s', reply) := Exchange(old(store.State()), payload, link);
              store.State() == s' && response == Answer(payload, reply)
  {
    var parsed := ParseTransactionAndNamespace(env, sub);
    if parsed.Err? {
      return Failure(400);
    }
    var (transaction, requestNamespace) := parsed.value;

    var verdict, _ := AuthorizeAll(env, Batches(transaction), requestNamespace);
    if verdict != Pass {
      return Failure(403);
    }

    var resources := new Resources();
    var error := StageBatches(env, resources, Batches(transaction), requestNamespace);
    if error.Some? {
      return Failure(400);
    }

    if |resources.entries| == 0 {
      return Failure(400);
    }

    var txnName := transaction.name;
    if txnName == "" {
      txnName := sub.handlerName;
    }
    if txnName == "" {
      txnName := sub.generated;
    }

    var reply := Commit(store, requestNamespace, txnName, resources.entries, link);
    if reply.TransportError? {
      return Failure(500);
    } else if reply.NoReply? {
      return Failure(500);
    } else if !reply.response.succeeded {
      return Failure(500);
    }
    return Created(requestNamespace, txnName, reply.response.revision);
  }
}
